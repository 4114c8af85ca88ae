/**
 * The real-time channel: how a socket connection is authenticated, which rooms it joins
 * from the role it has at connect time, and which connections an emission to a room
 * reaches. The transport itself is not modelled: an emission is a value naming its room
 * and its event, and the hub is the registry of accepted connections.
 */
module Realtime {
  import opened Wrappers
  import opened Models
  import Auth

  datatype Room = ModeratorsRoom | AdminsRoom | UserRoom(userId: Id)

  const UserRoomPrefix: string := "user:"

  /** The room names the server joins and emits to. */
  function RoomName(r: Room): string {
    match r
    case ModeratorsRoom => "moderators"
    case AdminsRoom => "admins"
    case UserRoom(id) => UserRoomPrefix + id
  }

  /** Distinct rooms have distinct names, so an emission by name reaches exactly one room. */
  lemma RoomNameInjective(a: Room, b: Room)
    ensures RoomName(a) == RoomName(b) ==> a == b
  {
    if a.UserRoom? && b.UserRoom? {
      assert a.userId == RoomName(a)[|UserRoomPrefix|..];
      assert b.userId == RoomName(b)[|UserRoomPrefix|..];
    } else if a.UserRoom? {
      assert RoomName(a)[0] != RoomName(b)[0];
    } else if b.UserRoom? {
      assert RoomName(a)[0] != RoomName(b)[0];
    }
  }

  /** The rooms a connection of a user with `role` joins: `moderators` for staff, `admins` for admins, and its own room. */
  function RoomsFor(role: Role, id: Id): (rooms: set<Room>)
    ensures UserRoom(id) in rooms
    ensures ModeratorsRoom in rooms <==> role == Moderator || role == Admin
    ensures AdminsRoom in rooms <==> role == Admin
    ensures forall r :: r in rooms ==> r == ModeratorsRoom || r == AdminsRoom || r == UserRoom(id)
  {
    (if role == Moderator || role == Admin then {ModeratorsRoom} else {})
    + (if role == Admin then {AdminsRoom} else {})
    + {UserRoom(id)}
  }

  /** A plain user's connection is in its own room only; a moderator's in two rooms, an admin's in three. */
  lemma RoomCounts(id: Id)
    ensures RoomsFor(Member, id) == {UserRoom(id)}
    ensures |RoomsFor(Moderator, id)| == 2
    ensures |RoomsFor(Admin, id)| == 3
  {
    assert RoomsFor(Moderator, id) == {ModeratorsRoom, UserRoom(id)};
    assert RoomsFor(Admin, id) == {ModeratorsRoom, AdminsRoom, UserRoom(id)};
  }

  // ---------------------------------------------------------------- handshake

  datatype HandshakeResult = Accepted(user: User) | Rejected(message: string)

  const AuthenticationError: string := "Authentication error"
  const HandshakeUserNotFound: string := "User not found"

  /**
   * The connection middleware as written: it looks the user up by the token's `userId`
   * claim only. A missing claim finds nobody.
   */
  function AuthenticateSocketAsWritten(token: Option<string>, verify: string -> Option<Auth.Claims>, users: map<Id, User>): (h: HandshakeResult)
    ensures h.Accepted? ==> token.Some? && verify(token.value).Some?
                            && (var c := verify(token.value).value;
                                c.userId.Some? && c.userId.value in users && h.user == users[c.userId.value])
    ensures !Truthy(token) ==> h == Rejected(AuthenticationError)
  {
    if !Truthy(token) then Rejected(AuthenticationError)
    else match verify(token.value)
      case None => Rejected(AuthenticationError)
      case Some(c) =>
        if c.userId.Some? && c.userId.value in users then Accepted(users[c.userId.value])
        else Rejected(HandshakeUserNotFound)
  }

  /**
   * The tokens login and registration issue carry the user's id under `id`, not `userId`:
   * the handshake as written refuses every one of them, whoever the user is.
   */
  lemma IssuedTokenRefusedAsWritten(u: User, token: string, verify: string -> Option<Auth.Claims>, users: map<Id, User>)
    requires token != "" && verify(token) == Some(Auth.IssuedClaims(u))
    requires u.id in users && users[u.id] == u
    ensures AuthenticateSocketAsWritten(Some(token), verify, users) == Rejected(HandshakeUserNotFound)
  {
  }

  /**
   * The handshake with the user id read the way the HTTP middleware reads it
   * (`id`, then `userId`, then `sub`).
   */
  function AuthenticateSocket(token: Option<string>, verify: string -> Option<Auth.Claims>, users: map<Id, User>): (h: HandshakeResult)
    ensures h.Accepted? ==> token.Some? && verify(token.value).Some?
                            && (var id := Auth.SelectUserId(verify(token.value).value);
                                id.Some? && id.value in users && h.user == users[id.value])
    ensures !Truthy(token) ==> h == Rejected(AuthenticationError)
    ensures Truthy(token) && verify(token.value).None? ==> h == Rejected(AuthenticationError)
  {
    if !Truthy(token) then Rejected(AuthenticationError)
    else match verify(token.value)
      case None => Rejected(AuthenticationError)
      case Some(c) =>
        var id := Auth.SelectUserId(c);
        if id.Some? && id.value in users then Accepted(users[id.value]) else Rejected(HandshakeUserNotFound)
  }

  /** With the id read as the HTTP middleware reads it, an issued token connects as its user. */
  lemma IssuedTokenAccepted(u: User, token: string, verify: string -> Option<Auth.Claims>, users: map<Id, User>)
    requires token != "" && verify(token) == Some(Auth.IssuedClaims(u))
    requires u.id in users && users[u.id] == u
    ensures AuthenticateSocket(Some(token), verify, users) == Accepted(u)
  {
  }

  /** The corrected handshake still accepts every token the as-written one accepts, as the same user, when the token names one user only. */
  lemma HandshakeExtendsAsWritten(token: Option<string>, verify: string -> Option<Auth.Claims>, users: map<Id, User>)
    requires token.Some? && verify(token.value).Some? && verify(token.value).value.id.None?
    ensures AuthenticateSocketAsWritten(token, verify, users).Accepted? ==> AuthenticateSocket(token, verify, users) == AuthenticateSocketAsWritten(token, verify, users)
  {
  }

  // ---------------------------------------------------------------- events and emissions

  /** The `moderation:new-flag` payload. */
  datatype NewFlagPayload = NewFlagPayload(
    flagId: Id,
    postId: Id,
    reason: string,
    flaggedBy: string,
    postAuthor: Option<string>,
    postContent: string)

  /** The `moderation:action` payload. */
  datatype ActionPayload = ActionPayload(
    action: ModAction,
    postId: Id,
    reason: Option<string>,
    moderator: string)

  datatype Event = NewFlag(flag: NewFlagPayload) | ModerationAction(decision: ActionPayload)

  function EventName(e: Event): string {
    match e
    case NewFlag(_) => "moderation:new-flag"
    case ModerationAction(_) => "moderation:action"
  }

  datatype Emission = Emission(room: Room, event: Event)

  /** `emitToModerators`. */
  function EmitToModerators(e: Event): (m: Emission)
    ensures m.room == ModeratorsRoom && m.event == e
  {
    Emission(ModeratorsRoom, e)
  }

  /** `emitToUser`. */
  function EmitToUser(userId: Id, e: Event): (m: Emission)
    ensures m.room == UserRoom(userId) && m.event == e
  {
    Emission(UserRoom(userId), e)
  }

  /** `emitToAdmins`. */
  function EmitToAdmins(e: Event): (m: Emission)
    ensures m.room == AdminsRoom && m.event == e
  {
    Emission(AdminsRoom, e)
  }

  // ---------------------------------------------------------------- connections

  /** An accepted connection: who it belongs to, the role read at connect time, and the rooms it joined. */
  datatype Connection = Connection(userId: Id, role: Role, rooms: set<Room>)

  /** Every connection is in exactly the rooms its connect-time role calls for. */
  predicate WellJoined(conns: seq<Connection>) {
    forall i :: 0 <= i < |conns| ==> conns[i].rooms == RoomsFor(conns[i].role, conns[i].userId)
  }

  /** The connections an emission to `room` reaches, in connection order. */
  function Audience(conns: seq<Connection>, room: Room): (r: seq<Connection>)
    ensures |r| <= |conns|
    ensures forall c :: c in r <==> c in conns && room in c.rooms
  {
    if conns == [] then []
    else (if room in conns[0].rooms then [conns[0]] else []) + Audience(conns[1..], room)
  }

  /**
   * Who hears what: a moderators-room emission reaches exactly the staff connections, an
   * admins-room emission exactly the admin connections, and a user-room emission exactly
   * that user's connections.
   */
  lemma {:induction false} AudienceByRole(conns: seq<Connection>, id: Id)
    requires WellJoined(conns)
    ensures forall c :: c in Audience(conns, ModeratorsRoom) <==> c in conns && c.role != Member
    ensures forall c :: c in Audience(conns, AdminsRoom) <==> c in conns && c.role == Admin
    ensures forall c :: c in Audience(conns, UserRoom(id)) <==> c in conns && c.userId == id
  {
    forall c | c in conns
      ensures c.rooms == RoomsFor(c.role, c.userId)
    {
      var i :| 0 <= i < |conns| && conns[i] == c;
    }
  }

  /** The registry of accepted connections. */
  class Hub {
    var connections: seq<Connection>

    predicate Valid()
      reads this
    {
      WellJoined(connections)
    }

    constructor ()
      ensures Valid() && connections == []
    {
      connections := [];
    }

    /**
     * A connection attempt: on acceptance the socket joins its rooms in the source's order
     * (staff room, admin room, own room); on rejection nothing changes. Connections made
     * earlier keep the rooms they joined.
     */
    method Connect(token: Option<string>, verify: string -> Option<Auth.Claims>, users: map<Id, User>) returns (h: HandshakeResult)
      requires Valid()
      modifies this
      ensures Valid()
      ensures h == AuthenticateSocket(token, verify, users)
      ensures h.Accepted? ==> connections == old(connections) + [Connection(h.user.id, h.user.role, RoomsFor(h.user.role, h.user.id))]
      ensures h.Rejected? ==> connections == old(connections)
    {
      h := AuthenticateSocket(token, verify, users);
      if h.Accepted? {
        var u := h.user;
        var rooms: set<Room> := {};
        if u.role == Moderator || u.role == Admin {
          rooms := rooms + {ModeratorsRoom};
        }
        if u.role == Admin {
          rooms := rooms + {AdminsRoom};
        }
        rooms := rooms + {UserRoom(u.id)};
        assert rooms == RoomsFor(u.role, u.id);
        connections := connections + [Connection(u.id, u.role, rooms)];
      }
    }

    /** The connections an emission reaches. */
    function Deliver(m: Emission): (r: seq<Connection>)
      reads this
      ensures forall c :: c in r <==> c in connections && m.room in c.rooms
    {
      Audience(connections, m.room)
    }
  }
}
