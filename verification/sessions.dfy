/**
 * Who is present: `activeSessions` (account name to socket id), `users`
 * (socket id to user record) and the sockets socket.io holds open. The
 * disconnect handler, the eviction of an older socket of the same account,
 * and a successful join are defined here on values.
 */
module Sessions {
  import opened ChatTypes
  import opened Login

  datatype Presence = Presence(sessions: map<string, SocketId>, users: map<SocketId, User>, connected: set<SocketId>)

  /** `Array.from(users.values())`, without the insertion order. */
  function UserList(users: map<SocketId, User>): set<User> {
    users.Values
  }

  /** The 'disconnect' handler of socket `sid`, with the socket closed: its
      user record goes, and the session of that user's name goes only if it
      still points at `sid`. */
  function Disconnected(p: Presence, sid: SocketId): (r: Presence)
    ensures r.connected == p.connected - {sid}
    ensures r.users == p.users - {sid}
    ensures r.sessions.Keys <= p.sessions.Keys
    ensures forall n :: n in r.sessions ==> r.sessions[n] == p.sessions[n]
    ensures forall n :: n in p.sessions && n !in r.sessions ==>
      p.sessions[n] == sid && sid in p.users && p.users[sid].username == n
  {
    var sessions :=
      if sid in p.users && p.users[sid].username in p.sessions && p.sessions[p.users[sid].username] == sid
      then p.sessions - {p.users[sid].username}
      else p.sessions;
    Presence(sessions, p.users - {sid}, p.connected - {sid})
  }

  /** The disconnect handler broadcasts the user list only for a socket that
      had joined. */
  function DisconnectEvents(p: Presence, sid: SocketId): seq<Event> {
    if sid in p.users then [UserListUpdate(UserList(p.users - {sid}))] else []
  }

  /** A socket that disconnects late cannot end a session that a newer
      socket of the same account holds; the socket that holds its user's
      session ends it. */
  lemma DisconnectIsStaleSafe(p: Presence, sid: SocketId)
    ensures forall n :: n in p.sessions && p.sessions[n] != sid ==>
      n in Disconnected(p, sid).sessions && Disconnected(p, sid).sessions[n] == p.sessions[n]
    ensures sid in p.users && p.users[sid].username in p.sessions && p.sessions[p.users[sid].username] == sid ==>
      p.users[sid].username !in Disconnected(p, sid).sessions
  {
  }

  /** Disconnecting a socket twice is disconnecting it once. */
  lemma DisconnectIdempotent(p: Presence, sid: SocketId)
    ensures Disconnected(Disconnected(p, sid), sid) == Disconnected(p, sid)
    ensures DisconnectEvents(Disconnected(p, sid), sid) == []
  {
  }

  /** Replacing the socket `gone` of an account: a live socket is told to log
      out and disconnected (its handler runs at once), and its user record
      is dropped either way. */
  function Evicted(p: Presence, gone: SocketId): (r: Presence)
    ensures gone !in r.users && r.users == p.users - {gone}
    ensures r.connected == p.connected - {gone}
    ensures r.sessions.Keys <= p.sessions.Keys
    ensures forall n :: n in r.sessions ==> r.sessions[n] == p.sessions[n]
  {
    var q := if gone in p.connected then Disconnected(p, gone) else p;
    q.(users := q.users - {gone})
  }

  function EvictEvents(p: Presence, gone: SocketId): seq<Event> {
    if gone in p.connected then [ForceLogout(gone)] + DisconnectEvents(p, gone) else []
  }

  /** Evicting a socket that is no longer connected changes no session: a
      stale session entry stays until the account joins again. */
  lemma EvictingClosedSocketKeepsSessions(p: Presence, gone: SocketId)
    requires gone !in p.connected
    ensures Evicted(p, gone).sessions == p.sessions
    ensures EvictEvents(p, gone) == []
  {
  }

  /** Why a join is refused, if it is: the name test, then the room limit. */
  function JoinRefusalFor(p: Presence, name: string): (r: Option<JoinRefusal>)
    ensures r == Some(InvalidUser) <==> !IsValidUser(name)
    ensures r == Some(RoomFull) <==> IsValidUser(name) && IsRoomFull(p.sessions.Keys, name)
  {
    if !IsValidUser(name) then Some(InvalidUser)
    else if IsRoomFull(p.sessions.Keys, name) then Some(RoomFull)
    else None
  }

  /** With only account names as session keys, an account name is never
      refused: the only refusal left is for names that are not accounts. */
  lemma OnlyInvalidNamesRefused(p: Presence, name: string)
    requires p.sessions.Keys <= ValidNameSet
    ensures JoinRefusalFor(p, name).Some? <==> !IsValidUser(name)
  {
    if IsValidUser(name) {
      RoomFullUnreachable(p.sessions.Keys, name);
    }
  }

  /** The socket the join replaces, if any: another socket holding the name. */
  function Displaced(p: Presence, sid: SocketId, name: string): Option<SocketId> {
    if name in p.sessions && p.sessions[name] != sid then Some(p.sessions[name]) else None
  }

  /** An accepted join: any other socket of the account is evicted, then the
      session and the user record point at the joining socket. */
  function Joined(p: Presence, sid: SocketId, name: string, partner: Option<string>, now: int): Presence {
    var q := match Displaced(p, sid, name) case Some(o) => Evicted(p, o) case None => p;
    Presence(q.sessions[name := sid], q.users[sid := User(sid, name, partner, true, now)], q.connected)
  }

  /** After an accepted join the account's session is the joining socket,
      its user record names the account, sessions of other accounts are
      kept unless the evicted socket held them, and session keys stay
      account names. */
  lemma JoinedRegisters(p: Presence, sid: SocketId, name: string, partner: Option<string>, now: int)
    requires IsValidUser(name) && p.sessions.Keys <= ValidNameSet
    ensures var r := Joined(p, sid, name, partner, now);
      && r.sessions.Keys <= ValidNameSet
      && name in r.sessions && r.sessions[name] == sid
      && sid in r.users && r.users[sid] == User(sid, name, partner, true, now)
      && (forall n :: n in r.sessions && n != name ==> n in p.sessions && r.sessions[n] == p.sessions[n])
      && (forall n ::
            n in p.sessions && n != name && p.sessions[n] != sid && Displaced(p, sid, name) != Some(p.sessions[n])
            ==> n in r.sessions)
  {
    match Displaced(p, sid, name)
    case Some(o) => DisconnectIsStaleSafe(p, o);
    case None =>
  }

  /** A second join of the same socket under the same name evicts nobody
      and leaves the sessions as they were. */
  lemma RejoinKeepsSession(p: Presence, sid: SocketId, name: string, partner: Option<string>, now: int)
    requires name in p.sessions && p.sessions[name] == sid
    ensures Displaced(p, sid, name).None?
    ensures Joined(p, sid, name, partner, now).sessions == p.sessions
  {
  }
}
