/**
 * The server's session table (server/server.go, server/types.go): one
 * entry per remote address, created on the first packet, refreshed on
 * every later one, removed by the reaper, and copied into the periodic
 * world snapshot.
 *
 * Each lock-protected operation is one atomic step on an immutable table.
 * Time is an abstract integer clock; the random spawn position and
 * orientation are arguments.
 */
module Sessions {
  import opened Wrappers
  import opened Float32Bits
  import opened Protocol

  /**
   * The user record the server keeps per session. NewUser (user.go) is not
   * part of this model; it is assumed to set the id and type it is given
   * and to mark the user active.
   */
  datatype User = User(id: string, userType: string, location: Vec3, orientation: Float32, isActive: bool)

  /** A session: when its address last sent a packet, and its user (a pointer that may be nil). */
  datatype Client = Client(lastSeen: int, user: Option<User>)

  /** Sessions by address key (`addr.String()`). */
  type Table = map<string, Client>

  /** UserTypePlayer; its definition (user.go) is not part of this model, the value is assumed. */
  const UserTypePlayer: string := "player"

  /** `{"type": "connection_confirm", "user_id": ...}` */
  datatype ConnectionConfirm = ConnectionConfirm(typ: string, localUserId: string)

  /** One user in a broadcast. */
  datatype UserData = UserData(id: string, userType: string, location: Vec3, orientation: Float32, isActive: bool)

  /** `{"type": "world_update", "users": [...]}` */
  datatype WorldUpdate = WorldUpdate(typ: string, users: seq<UserData>)

  /** The random draws of randomSpawn for one new session. */
  datatype Spawn = Spawn(location: Vec3, orientation: Float32)

  /** The session table starts empty. */
  function NewTable(): (t: Table)
    ensures forall k :: k !in t
  {
    map[]
  }

  /** randomSpawn: a user with the given id and type, placed and turned by the draws. */
  function RandomSpawn(id: string, userType: string, spawn: Spawn): (u: User)
    ensures u.id == id && u.userType == userType && u.isActive
  {
    User(id, userType, spawn.location, spawn.orientation, true)
  }

  /** Every session's user carries the session's own key as its id. */
  predicate KeyedById(table: Table) {
    forall k | k in table && table[k].user.Some? :: table[k].user.value.id == k
  }

  // ---------------------------------------------------------------- receive

  /** handleNewClient: insert a freshly spawned session and answer with its id. */
  function HandleNewClient(table: Table, key: string, now: int, spawn: Spawn): (r: (Table, ConnectionConfirm))
    ensures r.0.Keys == table.Keys + {key}
    ensures r.0[key] == Client(now, Some(RandomSpawn(key, UserTypePlayer, spawn)))
    ensures forall k | k in table && k != key :: r.0[k] == table[k]
    ensures r.1.typ == ConnectionConfirmType && r.1.localUserId == key
  {
    var user := RandomSpawn(key, UserTypePlayer, spawn);
    (table[key := Client(now, Some(user))], ConnectionConfirm(ConnectionConfirmType, key))
  }

  /** The table after one packet, and the confirmation sent back, if any. */
  datatype Received = Received(table: Table, confirm: Option<ConnectionConfirm>)

  /**
   * The receive loop's step for a packet from `key` at time `now`: an unseen
   * key gets a new session and a confirmation; a known key only has its
   * lastSeen refreshed. No other session changes.
   */
  function Receive(table: Table, key: string, now: int, spawn: Spawn): (r: Received)
    ensures r.table.Keys == table.Keys + {key}
    ensures r.table[key].lastSeen == now
    ensures forall k | k in table && k != key :: r.table[k] == table[k]
    ensures key !in table ==>
      && r.table[key].user == Some(RandomSpawn(key, UserTypePlayer, spawn))
      && r.confirm == Some(ConnectionConfirm(ConnectionConfirmType, key))
    ensures key in table ==> r.table[key].user == table[key].user && r.confirm == None
  {
    if key !in table then
      var (t, confirm) := HandleNewClient(table, key, now, spawn);
      Received(t, Some(confirm))
    else
      Received(table[key := table[key].(lastSeen := now)], None)
  }

  lemma ReceivePreservesKeyedById(table: Table, key: string, now: int, spawn: Spawn)
    requires KeyedById(table)
    ensures KeyedById(Receive(table, key, now, spawn).table)
  {
  }

  /**
   * Repeating a packet from a known address creates nothing: the table has
   * the same keys, the same users, and no confirmation is sent.
   */
  lemma RepeatedPacketIdempotent(table: Table, key: string, t1: int, t2: int, s1: Spawn, s2: Spawn)
    ensures var once := Receive(table, key, t1, s1).table;
      var twice := Receive(once, key, t2, s2);
      && twice.table.Keys == once.Keys
      && twice.table[key].user == once[key].user
      && twice.table[key].lastSeen == t2
      && twice.confirm == None
  {
  }

  /** A received datagram: sender key, arrival time, and the spawn draws used if the sender is new. */
  datatype Packet = Packet(key: string, time: int, spawn: Spawn)

  /** The table after a run of packets, and the confirmations sent, in order. */
  datatype Trace = Trace(table: Table, confirms: seq<ConnectionConfirm>)

  /** The receive loop over a sequence of packets. */
  function ReceiveAll(table: Table, packets: seq<Packet>): Trace
    decreases |packets|
  {
    if packets == [] then Trace(table, [])
    else
      var r := Receive(table, packets[0].key, packets[0].time, packets[0].spawn);
      var rest := ReceiveAll(r.table, packets[1..]);
      Trace(rest.table, (if r.confirm.Some? then [r.confirm.value] else []) + rest.confirms)
  }

  function PacketKeys(packets: seq<Packet>): set<string> {
    set p | p in packets :: p.key
  }

  function ConfirmedIds(confirms: seq<ConnectionConfirm>): set<string> {
    set c | c in confirms :: c.localUserId
  }

  lemma PacketKeysCons(packets: seq<Packet>)
    requires packets != []
    ensures PacketKeys(packets) == {packets[0].key} + PacketKeys(packets[1..])
  {
    assert packets == [packets[0]] + packets[1..];
  }

  /**
   * Over a run of packets with no reap between them, the table gains exactly
   * the senders' keys, and users keep their keys as ids.
   */
  lemma {:induction false} ReceiveAllTable(table: Table, packets: seq<Packet>)
    requires KeyedById(table)
    ensures ReceiveAll(table, packets).table.Keys == table.Keys + PacketKeys(packets)
    ensures KeyedById(ReceiveAll(table, packets).table)
    decreases |packets|
  {
    if packets != [] {
      var p := packets[0];
      ReceivePreservesKeyedById(table, p.key, p.time, p.spawn);
      ReceiveAllTable(Receive(table, p.key, p.time, p.spawn).table, packets[1..]);
      PacketKeysCons(packets);
    }
  }

  /**
   * Over a run of packets with no reap between them, the confirmations are all
   * `connection_confirm` messages and name exactly the senders that had no
   * session.
   */
  lemma {:induction false} ReceiveAllConfirmsNewSenders(table: Table, packets: seq<Packet>)
    ensures forall c | c in ReceiveAll(table, packets).confirms :: c.typ == ConnectionConfirmType
    ensures ConfirmedIds(ReceiveAll(table, packets).confirms) == PacketKeys(packets) - table.Keys
    decreases |packets|
  {
    if packets != [] {
      var p := packets[0];
      var r := Receive(table, p.key, p.time, p.spawn);
      ReceiveAllConfirmsNewSenders(r.table, packets[1..]);
      PacketKeysCons(packets);
      var rest := ReceiveAll(r.table, packets[1..]).confirms;
      var head := if r.confirm.Some? then [r.confirm.value] else [];
      assert ReceiveAll(table, packets).confirms == head + rest;
      ConfirmedIdsConcat(head, rest);
      var later := PacketKeys(packets[1..]);
      assert r.table.Keys == table.Keys + {p.key};
      if p.key in table {
        assert ConfirmedIds(head) == {};
        assert r.table.Keys == table.Keys;
      } else {
        assert ConfirmedIds(head) == {p.key};
        assert {p.key} + (later - (table.Keys + {p.key})) == ({p.key} + later) - table.Keys;
      }
    }
  }

  lemma ConfirmedIdsConcat(a: seq<ConnectionConfirm>, b: seq<ConnectionConfirm>)
    ensures ConfirmedIds(a + b) == ConfirmedIds(a) + ConfirmedIds(b)
    ensures forall c | c in a + b :: c in a || c in b
  {
    assert forall c :: c in a + b <==> c in a || c in b;
  }

  /** No two confirmations name the same id. */
  predicate ConfirmsDistinct(confirms: seq<ConnectionConfirm>) {
    forall i, j | 0 <= i < j < |confirms| :: confirms[i].localUserId != confirms[j].localUserId
  }

  /** Prefixing at most one confirmation whose id is new keeps the ids distinct. */
  lemma ConsDistinct(head: seq<ConnectionConfirm>, rest: seq<ConnectionConfirm>)
    requires |head| <= 1 && ConfirmsDistinct(rest)
    requires |head| == 1 ==> head[0].localUserId !in ConfirmedIds(rest)
    ensures ConfirmsDistinct(head + rest)
  {
    var confirms := head + rest;
    forall i, j | 0 <= i < j < |confirms|
      ensures confirms[i].localUserId != confirms[j].localUserId
    {
      if i < |head| {
        assert confirms[j] == rest[j - 1];
        assert confirms[j].localUserId in ConfirmedIds(rest);
      } else {
        assert confirms[i] == rest[i - |head|] && confirms[j] == rest[j - |head|];
      }
    }
  }

  /**
   * Within a run of packets with no reap between them, no address is
   * confirmed twice. A reap in between can cause a second confirmation:
   * see ReapedSenderConfirmedAgain.
   */
  lemma {:induction false} ReceiveAllConfirmsOnce(table: Table, packets: seq<Packet>)
    ensures ConfirmsDistinct(ReceiveAll(table, packets).confirms)
    decreases |packets|
  {
    if packets != [] {
      var p := packets[0];
      var r := Receive(table, p.key, p.time, p.spawn);
      ReceiveAllConfirmsOnce(r.table, packets[1..]);
      ReceiveAllConfirmsNewSenders(r.table, packets[1..]);
      var rest := ReceiveAll(r.table, packets[1..]).confirms;
      var head := if r.confirm.Some? then [r.confirm.value] else [];
      assert ReceiveAll(table, packets).confirms == head + rest;
      ConsDistinct(head, rest);
    }
  }

  /**
   * A server that starts with an empty table and receives a run of packets
   * with no reap between them holds exactly one session per sender, each
   * user under its own key, and has confirmed every sender exactly once.
   */
  lemma FreshServerRun(packets: seq<Packet>)
    ensures ReceiveAll(NewTable(), packets).table.Keys == PacketKeys(packets)
    ensures KeyedById(ReceiveAll(NewTable(), packets).table)
    ensures ConfirmedIds(ReceiveAll(NewTable(), packets).confirms) == PacketKeys(packets)
    ensures ConfirmsDistinct(ReceiveAll(NewTable(), packets).confirms)
  {
    var t := NewTable();
    assert t.Keys == {};
    ReceiveAllTable(t, packets);
    ReceiveAllConfirmsNewSenders(t, packets);
    ReceiveAllConfirmsOnce(t, packets);
  }

  // ---------------------------------------------------------------- reaper

  /** A session is stale when strictly more than `timeout` has passed since its last packet. */
  predicate TimedOut(c: Client, now: int, timeout: int) {
    now - c.lastSeen > timeout
  }

  /**
   * cleanInactiveClients: walks the table and deletes every stale session.
   * Exactly the stale sessions go; a session exactly `timeout` old stays;
   * survivors are untouched.
   */
  method CleanInactiveClients(table: Table, now: int, timeout: int) returns (kept: Table)
    ensures forall k :: k in kept <==> k in table && !TimedOut(table[k], now, timeout)
    ensures forall k | k in kept :: kept[k] == table[k]
  {
    kept := table;
    var unvisited := table.Keys;
    while unvisited != {}
      invariant unvisited <= table.Keys
      invariant forall k :: k in kept <==> k in table && (k in unvisited || !TimedOut(table[k], now, timeout))
      invariant forall k | k in kept :: kept[k] == table[k]
      decreases unvisited
    {
      var key :| key in unvisited;
      if TimedOut(kept[key], now, timeout) {
        kept := kept - {key};
      }
      unvisited := unvisited - {key};
    }
  }

  // ---------------------------------------------------------------- snapshot

  /** The broadcast projection of a user. */
  function Project(u: User): (d: UserData)
    ensures d.id == u.id && d.userType == u.userType && d.location == u.location
    ensures d.orientation == u.orientation && d.isActive == u.isActive
  {
    UserData(u.id, u.userType, u.location, u.orientation, u.isActive)
  }

  /** `order` lists every key of the table once: the (unspecified) order Go's map iteration visits them in. */
  predicate Enumerates(order: seq<string>, table: Table) {
    && (forall i, j | 0 <= i < j < |order| :: order[i] != order[j])
    && (forall k | k in order :: k in table)
    && (forall k | k in table :: k in order)
  }

  /** The keys visited in `order` whose session has a user: those the snapshot loop does not skip. */
  function LiveOrder(table: Table, order: seq<string>): (live: seq<string>)
    requires forall k | k in order :: k in table
    ensures |live| <= |order|
    ensures forall i | 0 <= i < |live| :: live[i] in order && table[live[i]].user.Some?
    ensures forall k | k in order && table[k].user.Some? :: k in live
  {
    if order == [] then []
    else
      var rest := LiveOrder(table, order[1..]);
      if table[order[0]].user.Some? then [order[0]] + rest else rest
  }

  /**
   * The snapshot half of broadcastWorldState: a `world_update` with one
   * projection per session whose user is not nil, and nothing else. The
   * table itself is only read.
   */
  function Snapshot(table: Table, order: seq<string>): (w: WorldUpdate)
    requires Enumerates(order, table)
    ensures w.typ == WorldUpdateType
    ensures |w.users| <= |table|
    ensures forall i | 0 <= i < |w.users| :: exists k ::
      k in table && table[k].user.Some? && w.users[i] == Project(table[k].user.value)
    ensures forall k | k in table && table[k].user.Some? :: Project(table[k].user.value) in w.users
  {
    DistinctLength(order);
    assert (set k | k in order) == table.Keys;
    var live := LiveOrder(table, order);
    var users := seq(|live|, i requires 0 <= i < |live| => Project(table[live[i]].user.value));
    assert forall i | 0 <= i < |users| :: live[i] in table && users[i] == Project(table[live[i]].user.value);
    assert forall k | k in table && table[k].user.Some? :: k in live;
    WorldUpdate(WorldUpdateType, users)
  }

  /** A sequence without repetitions has as many elements as its set. */
  lemma {:induction false} DistinctLength<T>(s: seq<T>)
    requires forall i, j | 0 <= i < j < |s| :: s[i] != s[j]
    ensures |set x | x in s| == |s|
  {
    if s != [] {
      var tail := s[1..];
      assert forall i, j | 0 <= i < j < |tail| :: tail[i] != tail[j] by {
        forall i, j | 0 <= i < j < |tail| ensures tail[i] != tail[j] {
          assert tail[i] == s[i + 1] && tail[j] == s[j + 1];
        }
      }
      DistinctLength(tail);
      assert (set x | x in s) == {s[0]} + (set x | x in tail);
      assert s[0] !in (set x | x in tail) by {
        forall j | 0 <= j < |tail| ensures tail[j] != s[0] {
          assert tail[j] == s[j + 1];
        }
      }
    }
  }

  /** The ids a snapshot lists. */
  function SnapshotIds(w: WorldUpdate): set<string> {
    set d | d in w.users :: d.id
  }

  /** The keys of the sessions that have a user. */
  function LiveKeys(table: Table): set<string> {
    set k | k in table && table[k].user.Some?
  }

  /**
   * When users carry their session keys, a snapshot lists exactly the keys
   * of the sessions with a user, each once.
   */
  lemma SnapshotListsLiveKeys(table: Table, order: seq<string>)
    requires Enumerates(order, table)
    requires KeyedById(table)
    ensures SnapshotIds(Snapshot(table, order)) == LiveKeys(table)
    ensures forall i, j | 0 <= i < j < |Snapshot(table, order).users| ::
      Snapshot(table, order).users[i].id != Snapshot(table, order).users[j].id
  {
    var w := Snapshot(table, order);
    forall k | k in LiveKeys(table) ensures k in SnapshotIds(w) {
      assert Project(table[k].user.value) in w.users;
    }
    LiveOrderDistinct(table, order);
    var live := LiveOrder(table, order);
    assert forall i | 0 <= i < |w.users| :: w.users[i].id == live[i];
  }

  /** Filtering a listing without repetitions keeps it without repetitions. */
  lemma {:induction false} LiveOrderDistinct(table: Table, order: seq<string>)
    requires forall k | k in order :: k in table
    requires forall i, j | 0 <= i < j < |order| :: order[i] != order[j]
    ensures forall i, j | 0 <= i < j < |LiveOrder(table, order)| ::
      LiveOrder(table, order)[i] != LiveOrder(table, order)[j]
  {
    if order != [] {
      var tail := order[1..];
      assert forall i, j | 0 <= i < j < |tail| :: tail[i] != tail[j] by {
        forall i, j | 0 <= i < j < |tail| ensures tail[i] != tail[j] {
          assert tail[i] == order[i + 1] && tail[j] == order[j + 1];
        }
      }
      LiveOrderDistinct(table, tail);
      assert order[0] !in tail by {
        forall j | 0 <= j < |tail| ensures tail[j] != order[0] {
          assert tail[j] == order[j + 1];
        }
      }
    }
  }

  /**
   * Reaping then taking a snapshot: a session silent for longer than the
   * timeout is no longer listed, and one heard from within the timeout is.
   */
  lemma ReapedSessionsLeaveSnapshot(table: Table, kept: Table, now: int, timeout: int, order: seq<string>, k: string)
    requires KeyedById(table)
    requires forall k' :: k' in kept <==> k' in table && !TimedOut(table[k'], now, timeout)
    requires forall k' | k' in kept :: kept[k'] == table[k']
    requires Enumerates(order, kept)
    requires k in table && table[k].user.Some?
    ensures k in SnapshotIds(Snapshot(kept, order)) <==> !TimedOut(table[k], now, timeout)
  {
    assert KeyedById(kept);
    SnapshotListsLiveKeys(kept, order);
  }

  /**
   * A sender whose session was reaped is a new client again: its next packet
   * creates a fresh session and is confirmed a second time. A sender that
   * survived the reap is not confirmed again.
   */
  lemma ReapedSenderConfirmedAgain(table: Table, kept: Table, now: int, timeout: int, k: string, t: int, spawn: Spawn)
    requires forall k' :: k' in kept <==> k' in table && !TimedOut(table[k'], now, timeout)
    requires forall k' | k' in kept :: kept[k'] == table[k']
    requires k in table
    ensures Receive(kept, k, t, spawn).confirm.Some? <==> TimedOut(table[k], now, timeout)
    ensures TimedOut(table[k], now, timeout) ==>
      && Receive(kept, k, t, spawn).confirm == Some(ConnectionConfirm(ConnectionConfirmType, k))
      && Receive(kept, k, t, spawn).table[k].user == Some(RandomSpawn(k, UserTypePlayer, spawn))
  {
  }
}
