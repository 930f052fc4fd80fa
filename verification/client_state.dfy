/**
 * The client's view of the world (client/core/message_handler.go and the
 * receive loop of client/core/client.go): the local user id and the users
 * by id, updated by each parsed server message.
 *
 * JSON parsing is abstract: a buffer either parses to a ServerMessage or
 * fails. WorldState (world.go) is not part of this model; its Users map is
 * the `users` field, and UpdateUser is assumed to insert or replace by id.
 */
module ClientState {
  import opened Wrappers
  import opened Float32Bits
  import opened Protocol

  /**
   * The client's user record. The float64 location is the exact widening
   * of the float32 received, so the float32 bit patterns are kept. The
   * display color, a function of the user type, is not modelled.
   */
  datatype User = User(id: string, userType: string, location: Vec3, orientation: Float32, isActive: bool, lastUpdate: int)

  /** One entry of a `world_update` message. */
  datatype UserUpdate = UserUpdate(id: string, userType: string, location: Vec3, orientation: Float32, isActive: bool)

  /** A parsed server message; absent JSON fields read as empty. */
  datatype ServerMessage = ServerMessage(typ: string, users: seq<UserUpdate>, userId: string)

  /** UDPClient.LocalUserID and WorldState.Users. */
  datatype State = State(localUserId: string, users: map<string, User>)

  /** The user record built from an update received at time `now`. */
  function FromUpdate(u: UserUpdate, now: int): (r: User)
    ensures r.id == u.id && r.userType == u.userType && r.location == u.location
    ensures r.orientation == u.orientation && r.isActive == u.isActive && r.lastUpdate == now
  {
    User(u.id, u.userType, u.location, u.orientation, u.isActive, now)
  }

  /** WorldState.UpdateUser, assumed to be insert-or-replace keyed by the user's id. */
  function UpdateUser(users: map<string, User>, u: User): map<string, User> {
    users[u.id := u]
  }

  /** The ids a message lists. */
  function ReceivedIds(updates: seq<UserUpdate>): set<string> {
    set u | u in updates :: u.id
  }

  /** The last entry of `updates` with the given id. */
  function LastUpdateFor(updates: seq<UserUpdate>, id: string): (u: UserUpdate)
    requires id in ReceivedIds(updates)
    ensures u in updates && u.id == id
    ensures exists i | 0 <= i < |updates| :: updates[i] == u && forall j | i < j < |updates| :: updates[j].id != id
  {
    var last := updates[|updates| - 1];
    if last.id == id then last
    else
      assert id in ReceivedIds(updates[..|updates| - 1]) by {
        var w :| w in updates && w.id == id;
        assert w in updates[..|updates| - 1] by {
          assert updates == updates[..|updates| - 1] + [last];
        }
      }
      LastUpdateFor(updates[..|updates| - 1], id)
  }

  /**
   * The first loop of handleWorldUpdate: UpdateUser for each entry, in
   * order. Listed ids end up with their last entry; other users are kept.
   */
  function ApplyUpdates(users: map<string, User>, updates: seq<UserUpdate>, now: int): (r: map<string, User>)
    ensures r.Keys == users.Keys + ReceivedIds(updates)
    ensures forall id | id in ReceivedIds(updates) :: r[id] == FromUpdate(LastUpdateFor(updates, id), now)
    ensures forall id | id in users && id !in ReceivedIds(updates) :: r[id] == users[id]
  {
    if updates == [] then users
    else
      var prefix := updates[..|updates| - 1];
      var last := updates[|updates| - 1];
      assert updates == prefix + [last];
      assert ReceivedIds(updates) == ReceivedIds(prefix) + {last.id};
      UpdateUser(ApplyUpdates(users, prefix, now), FromUpdate(last, now))
  }

  /**
   * handleWorldUpdate: apply every entry, then delete every user whose id
   * the message did not list. The message is authoritative: afterwards the
   * users are exactly the listed ids, each with its last entry's fields.
   */
  function HandleWorldUpdate(st: State, msg: ServerMessage, now: int): (r: State)
    ensures r.localUserId == st.localUserId
    ensures r.users.Keys == ReceivedIds(msg.users)
    ensures forall id | id in r.users :: r.users[id] == FromUpdate(LastUpdateFor(msg.users, id), now)
  {
    var applied := ApplyUpdates(st.users, msg.users, now);
    var received := ReceivedIds(msg.users);
    State(st.localUserId, map id | id in applied && id in received :: applied[id])
  }

  /** handleConnectionConfirm: adopt the id the server assigned. */
  function HandleConnectionConfirm(st: State, msg: ServerMessage): (r: State)
    ensures r.localUserId == msg.userId && r.users == st.users
  {
    st.(localUserId := msg.userId)
  }

  /**
   * HandleMessage: a buffer that does not parse, or a message of an unknown
   * type, changes nothing; the two known types go to their handlers.
   */
  function HandleMessage(st: State, parsed: Option<ServerMessage>, now: int): (r: State)
    ensures parsed.None? ==> r == st
    ensures parsed.Some? && parsed.value.typ == ConnectionConfirmType ==>
      r.localUserId == parsed.value.userId && r.users == st.users
    ensures parsed.Some? && parsed.value.typ == WorldUpdateType ==>
      && r.localUserId == st.localUserId
      && r.users.Keys == ReceivedIds(parsed.value.users)
      && forall id | id in r.users :: r.users[id] == FromUpdate(LastUpdateFor(parsed.value.users, id), now)
    ensures parsed.Some? && parsed.value.typ != ConnectionConfirmType && parsed.value.typ != WorldUpdateType ==>
      r == st
  {
    match parsed
    case None => st
    case Some(msg) =>
      if msg.typ == ConnectionConfirmType then HandleConnectionConfirm(st, msg)
      else if msg.typ == WorldUpdateType then HandleWorldUpdate(st, msg, now)
      else st
  }

  /**
   * The body of the receive goroutine in UDPClient.StartReceiving, with its
   * two independent `if`s instead of a switch. It behaves as HandleMessage.
   */
  function ReceiveStep(st: State, parsed: Option<ServerMessage>, now: int): (r: State)
    ensures r == HandleMessage(st, parsed, now)
  {
    if parsed.None? then st
    else
      var msg := parsed.value;
      var afterConfirm := if msg.typ == ConnectionConfirmType then st.(localUserId := msg.userId) else st;
      if msg.typ == WorldUpdateType then
        var applied := ApplyUpdates(afterConfirm.users, msg.users, now);
        var received := ReceivedIds(msg.users);
        afterConfirm.(users := map id | id in applied && id in received :: applied[id])
      else afterConfirm
  }

  /** GetLocalUser: nothing before an id is assigned, otherwise the user stored under that id, if any. */
  function GetLocalUser(st: State): (r: Option<User>)
    ensures st.localUserId == "" ==> r == None
    ensures st.localUserId != "" ==>
      (r.Some? <==> st.localUserId in st.users) && (r.Some? ==> r.value == st.users[st.localUserId])
  {
    if st.localUserId == "" then None
    else if st.localUserId in st.users then Some(st.users[st.localUserId])
    else None
  }

  /** With distinct ids, every entry of a `world_update` is stored as sent. */
  lemma WorldUpdateStoresEachEntry(st: State, msg: ServerMessage, now: int, i: nat)
    requires forall a, b | 0 <= a < b < |msg.users| :: msg.users[a].id != msg.users[b].id
    requires i < |msg.users|
    ensures msg.users[i].id in HandleWorldUpdate(st, msg, now).users
    ensures HandleWorldUpdate(st, msg, now).users[msg.users[i].id] == FromUpdate(msg.users[i], now)
  {
    var id := msg.users[i].id;
    assert msg.users[i] in msg.users;
    var u := LastUpdateFor(msg.users, id);
    var j :| 0 <= j < |msg.users| && msg.users[j] == u;
    assert j == i;
  }

  /** A `world_update` listing nobody empties the users. */
  lemma EmptyWorldUpdateClearsUsers(st: State, msg: ServerMessage, now: int)
    requires msg.users == []
    ensures HandleWorldUpdate(st, msg, now).users == map[]
  {
  }
}
