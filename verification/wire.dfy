/**
 * The JSON messages as they travel from server to client: the server's
 * `connection_confirm` and `world_update` structs, read back by the
 * client's ServerMessage. The JSON tags agree field by field (`type`,
 * `user_id`, `users`, and per user `id`, `user_type`, `location`,
 * `orientation`, `is_active`), so serialisation is modelled as the field
 * mapping below; absent fields read as empty. Marshalling is assumed to
 * succeed, which holds for the finite floats `randomSpawn` produces.
 *
 * The lemmas connect the two ends: what the client holds after the
 * server's messages is what the server's table holds.
 */
module Wire {
  import opened Wrappers
  import opened Protocol
  import Sessions
  import ClientState

  /** A `connection_confirm` as the client parses it: no users. */
  function ConfirmToClient(c: Sessions.ConnectionConfirm): ClientState.ServerMessage {
    ClientState.ServerMessage(c.typ, [], c.localUserId)
  }

  /** One broadcast user as the client parses it. */
  function DataToUpdate(d: Sessions.UserData): ClientState.UserUpdate {
    ClientState.UserUpdate(d.id, d.userType, d.location, d.orientation, d.isActive)
  }

  /** A `world_update` as the client parses it: no user id. */
  function WorldUpdateToClient(w: Sessions.WorldUpdate): ClientState.ServerMessage {
    ClientState.ServerMessage(w.typ, seq(|w.users|, i requires 0 <= i < |w.users| => DataToUpdate(w.users[i])), "")
  }

  /** The client after receiving the server's snapshot of `table` at time `now`. */
  function AfterBroadcast(st: ClientState.State, table: Sessions.Table, order: seq<string>, now: int): ClientState.State
    requires Sessions.Enumerates(order, table)
  {
    ClientState.HandleMessage(st, Some(WorldUpdateToClient(Sessions.Snapshot(table, order))), now)
  }

  /**
   * The first packet from an address makes the server confirm it, and the
   * client that reads the confirmation adopts the address key as its
   * user id, keeping the users it knows.
   */
  lemma ConfirmAssignsKey(st: ClientState.State, table: Sessions.Table, key: string, now: int, spawn: Sessions.Spawn, t: int)
    requires key !in table
    ensures var r := Sessions.Receive(table, key, now, spawn);
      && r.confirm.Some?
      && ClientState.HandleMessage(st, Some(ConfirmToClient(r.confirm.value)), t)
         == ClientState.State(key, st.users)
  {
  }

  /**
   * Reconciliation: after a broadcast the client holds exactly the users
   * of the server's sessions, under their ids, with the server's fields
   * and the arrival time; users the server no longer has are gone.
   */
  lemma BroadcastReconciles(st: ClientState.State, table: Sessions.Table, order: seq<string>, now: int)
    requires Sessions.Enumerates(order, table)
    requires Sessions.KeyedById(table)
    ensures AfterBroadcast(st, table, order, now).localUserId == st.localUserId
    ensures AfterBroadcast(st, table, order, now).users.Keys == Sessions.LiveKeys(table)
    ensures forall id | id in AfterBroadcast(st, table, order, now).users ::
      var u := table[id].user.value;
      AfterBroadcast(st, table, order, now).users[id]
        == ClientState.User(u.id, u.userType, u.location, u.orientation, u.isActive, now)
  {
    var w := Sessions.Snapshot(table, order);
    var msg := WorldUpdateToClient(w);
    var r := AfterBroadcast(st, table, order, now);
    Sessions.SnapshotListsLiveKeys(table, order);
    ParsedIds(w);
    forall id | id in r.users
      ensures r.users[id] == ClientState.User(id, table[id].user.value.userType, table[id].user.value.location,
                                               table[id].user.value.orientation, table[id].user.value.isActive, now)
    {
      ParsedEntry(table, order, id);
    }
  }

  /** The client reads the ids the server listed. */
  lemma ParsedIds(w: Sessions.WorldUpdate)
    ensures ClientState.ReceivedIds(WorldUpdateToClient(w).users) == Sessions.SnapshotIds(w)
  {
    var msg := WorldUpdateToClient(w);
    forall id | id in ClientState.ReceivedIds(msg.users) ensures id in Sessions.SnapshotIds(w) {
      var i :| 0 <= i < |msg.users| && msg.users[i].id == id;
      assert w.users[i] in w.users;
    }
    forall id | id in Sessions.SnapshotIds(w) ensures id in ClientState.ReceivedIds(msg.users) {
      var i :| 0 <= i < |w.users| && w.users[i].id == id;
      assert msg.users[i] in msg.users;
    }
  }

  /** Whichever entry for `id` the client keeps, it carries the fields of the server's user under key `id`. */
  lemma ParsedEntry(table: Sessions.Table, order: seq<string>, id: string)
    requires Sessions.Enumerates(order, table)
    requires Sessions.KeyedById(table)
    requires id in ClientState.ReceivedIds(WorldUpdateToClient(Sessions.Snapshot(table, order)).users)
    ensures id in table && table[id].user.Some?
    ensures ClientState.LastUpdateFor(WorldUpdateToClient(Sessions.Snapshot(table, order)).users, id)
         == DataToUpdate(Sessions.Project(table[id].user.value))
  {
    var w := Sessions.Snapshot(table, order);
    var msg := WorldUpdateToClient(w);
    var upd := ClientState.LastUpdateFor(msg.users, id);
    var i :| 0 <= i < |msg.users| && msg.users[i] == upd;
    var k :| k in table && table[k].user.Some? && w.users[i] == Sessions.Project(table[k].user.value);
    assert k == id;
  }

  /** A client whose id names a session with a user finds that user after a broadcast. */
  lemma LocalUserAfterBroadcast(st: ClientState.State, table: Sessions.Table, order: seq<string>, now: int)
    requires Sessions.Enumerates(order, table)
    requires Sessions.KeyedById(table)
    requires st.localUserId != ""
    requires st.localUserId in table && table[st.localUserId].user.Some?
    ensures var u := table[st.localUserId].user.value;
      ClientState.GetLocalUser(AfterBroadcast(st, table, order, now))
        == Some(ClientState.User(u.id, u.userType, u.location, u.orientation, u.isActive, now))
  {
    var id := st.localUserId;
    var after := AfterBroadcast(st, table, order, now);
    BroadcastReconciles(st, table, order, now);
    assert id in Sessions.LiveKeys(table);
    assert after.localUserId == id && id in after.users;
    var u := table[id].user.value;
    assert after.users[id] == ClientState.User(u.id, u.userType, u.location, u.orientation, u.isActive, now);
  }

  /**
   * A new client, once confirmed and sent a snapshot that covers its
   * session, finds itself: GetLocalUser returns the user the server
   * spawned for its address. Address keys (`addr.String()`) are never
   * empty; an empty id would read as "no id assigned yet".
   */
  lemma NewClientFindsItself(
    st: ClientState.State, table: Sessions.Table, key: string, now: int, spawn: Sessions.Spawn,
    order: seq<string>, t1: int, t2: int)
    requires key != ""
    requires key !in table
    requires Sessions.KeyedById(table)
    requires Sessions.Enumerates(order, Sessions.Receive(table, key, now, spawn).table)
    ensures var r := Sessions.Receive(table, key, now, spawn);
      var confirmed := ClientState.HandleMessage(st, Some(ConfirmToClient(r.confirm.value)), t1);
      ClientState.GetLocalUser(AfterBroadcast(confirmed, r.table, order, t2))
        == Some(ClientState.User(key, Sessions.UserTypePlayer, spawn.location, spawn.orientation, true, t2))
  {
    var r := Sessions.Receive(table, key, now, spawn);
    ConfirmAssignsKey(st, table, key, now, spawn, t1);
    var confirmed := ClientState.State(key, st.users);
    Sessions.ReceivePreservesKeyedById(table, key, now, spawn);
    LocalUserAfterBroadcast(confirmed, r.table, order, t2);
  }

  /**
   * Reaping then broadcasting: a client drops a user whose session was
   * silent for longer than the timeout, and keeps one heard from within it.
   */
  lemma ReapedUserLeavesClient(
    st: ClientState.State, table: Sessions.Table, kept: Sessions.Table, now: int, timeout: int,
    order: seq<string>, t: int, k: string)
    requires Sessions.KeyedById(table)
    requires forall k' :: k' in kept <==> k' in table && !Sessions.TimedOut(table[k'], now, timeout)
    requires forall k' | k' in kept :: kept[k'] == table[k']
    requires Sessions.Enumerates(order, kept)
    requires k in table && table[k].user.Some?
    ensures k in AfterBroadcast(st, kept, order, t).users <==> !Sessions.TimedOut(table[k], now, timeout)
  {
    assert Sessions.KeyedById(kept);
    BroadcastReconciles(st, kept, order, t);
  }
}
