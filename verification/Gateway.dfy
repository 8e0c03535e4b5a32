/** The connection maps of src/notifications/notifications.gateway.ts: the sockets of each user, the user
    and the session of each socket, under connections, disconnections, revocations and heartbeats.
    Socket.IO itself is not part of this model: a forced disconnect shows as a later disconnection. */
module Gateway {

  type UserId = string
  type SocketId = string
  type SessionId = string

  datatype Maps = Maps(userSockets: map<UserId, set<SocketId>>, socketUsers: map<SocketId, UserId>,
                       socketSessions: map<SocketId, SessionId>)

  // --- the events as functions -----------------------------------------------------------------

  /** An authenticated connection; the empty session stands for none. */
  function Connect(m: Maps, id: SocketId, user: UserId, session: SessionId): Maps {
    var sockets := if user in m.userSockets then m.userSockets[user] else {};
    Maps(m.userSockets[user := sockets + {id}], m.socketUsers[id := user],
         if session != "" then m.socketSessions[id := session] else m.socketSessions)
  }

  function Disconnect(m: Maps, id: SocketId): Maps {
    var t := m.(socketSessions := m.socketSessions - {id});
    if id !in m.socketUsers then t
    else
      var user := m.socketUsers[id];
      var sockets := if user in m.userSockets then m.userSockets[user] - {id} else {};
      t.(userSockets := if sockets == {} then m.userSockets - {user} else m.userSockets[user := sockets],
         socketUsers := m.socketUsers - {id})
  }

  /** No socket stays bound to one of these sessions. */
  function Unbind(bound: map<SocketId, SessionId>, sessions: set<SessionId>): map<SocketId, SessionId> {
    map s | s in bound && bound[s] !in sessions :: bound[s]
  }

  /** The sessions listed, without the empty name. */
  function Named(sessions: seq<SessionId>): set<SessionId> {
    (set x | x in sessions) - {""}
  }

  function Revoke(m: Maps, sessions: seq<SessionId>): Maps {
    m.(socketSessions := Unbind(m.socketSessions, Named(sessions)))
  }

  // --- the gateway -----------------------------------------------------------------------------

  /** What the session store says of a session; it may fail. */
  datatype Validity = Valid | Invalid | Unavailable

  /** A socket whose session the check finds invalid is dropped; a check that fails drops nothing. */
  predicate Kept(check: SessionId -> Validity, session: SessionId) {
    check(session) != Invalid || session == ""
  }

  class NotificationsGateway {
    var userSockets: map<UserId, set<SocketId>>
    var socketUsers: map<SocketId, UserId>
    var socketSessions: map<SocketId, SessionId>

    ghost function Tracked(): Maps
      reads this
    {
      Maps(userSockets, socketUsers, socketSessions)
    }

    constructor ()
      ensures Tracked() == Maps(map[], map[], map[])
    {
      userSockets, socketUsers, socketSessions := map[], map[], map[];
    }

    method HandleConnection(id: SocketId, user: UserId, session: SessionId)
      modifies this
      ensures Tracked() == Connect(old(Tracked()), id, user, session)
    {
      var sockets := if user in userSockets then userSockets[user] else {};
      sockets := sockets + {id};
      userSockets := userSockets[user := sockets];
      socketUsers := socketUsers[id := user];
      if session != "" { socketSessions := socketSessions[id := session]; }
    }

    method HandleDisconnect(id: SocketId)
      modifies this
      ensures Tracked() == Disconnect(old(Tracked()), id)
    {
      socketSessions := socketSessions - {id};
      if id in socketUsers {
        var user := socketUsers[id];
        if user in userSockets {
          var sockets := userSockets[user] - {id};
          userSockets := userSockets[user := sockets];
          if sockets == {} { userSockets := userSockets - {user}; }
        }
        assert user !in old(userSockets) ==> old(userSockets) - {user} == userSockets;
        socketUsers := socketUsers - {id};
      }
    }

    method DisconnectSocket(id: SocketId, session: SessionId)
      modifies this`socketSessions
      ensures socketSessions == if session != "" then old(socketSessions) - {id} else old(socketSessions)
    {
      if session != "" { socketSessions := socketSessions - {id}; }
    }

    /** Drops every socket bound to the session, over a snapshot of the map. */
    method UnbindSession(session: SessionId)
      requires session != ""
      modifies this`socketSessions
      ensures socketSessions == Unbind(old(socketSessions), {session})
    {
      ghost var before := socketSessions;
      var snapshot := socketSessions;
      var todo := snapshot.Keys;
      while todo != {}
        invariant todo <= snapshot.Keys && snapshot == before
        invariant socketSessions == map s | s in before && (s in todo || before[s] != session) :: before[s]
        decreases |todo|
      {
        var id :| id in todo;
        if snapshot[id] == session { DisconnectSocket(id, session); }
        todo := todo - {id};
      }
      assert socketSessions == Unbind(before, {session});
    }

    method HandleSessionRevoked(sessions: seq<SessionId>)
      modifies this`socketSessions
      ensures Tracked() == Revoke(old(Tracked()), sessions)
    {
      ghost var before := socketSessions;
      assert socketSessions == Unbind(before, {});
      for i := 0 to |sessions|
        invariant socketSessions == Unbind(before, Named(sessions[..i]))
      {
        ghost var done := Named(sessions[..i]);
        assert sessions[..i + 1] == sessions[..i] + [sessions[i]];
        if sessions[i] == "" {
          assert Named(sessions[..i + 1]) == done;
          continue;
        }
        UnbindSession(sessions[i]);
        assert Named(sessions[..i + 1]) == done + {sessions[i]};
        assert Unbind(Unbind(before, done), {sessions[i]}) == Unbind(before, done + {sessions[i]});
      }
      assert sessions[..|sessions|] == sessions;
    }

    /** The timer: refreshes the presence of every tracked socket, then drops the sockets whose
        session is no longer valid. A failed check drops nothing. */
    method HeartbeatRound(check: SessionId -> Validity) returns (beats: seq<(UserId, SocketId)>)
      modifies this`socketSessions
      ensures forall s | s in socketUsers :: TimesBeaten(beats, socketUsers[s], s) == 1
      ensures forall b | b in beats :: b.1 in socketUsers && socketUsers[b.1] == b.0
      ensures socketSessions ==
        map s | s in old(socketSessions)
              && (check(old(socketSessions)[s]) != Invalid || old(socketSessions)[s] == "") :: old(socketSessions)[s]
    {
      beats := BeatAll(socketUsers);
      ghost var before := socketSessions;
      var todo := socketSessions.Keys;
      assert socketSessions == map s | s in before && (s in todo || Kept(check, before[s])) :: before[s];
      while todo != {}
        invariant todo <= socketSessions.Keys && todo <= before.Keys
        invariant socketSessions == map s | s in before && (s in todo || Kept(check, before[s])) :: before[s]
        decreases |todo|
      {
        var id :| id in todo;
        var session := socketSessions[id];
        if check(session).Invalid? { DisconnectSocket(id, session); }
        todo := todo - {id};
      }
      assert socketSessions == map s | s in before && Kept(check, before[s]) :: before[s];
    }
  }

  function TimesBeaten(beats: seq<(UserId, SocketId)>, user: UserId, id: SocketId): nat {
    multiset(beats)[(user, id)]
  }

  method BeatAll(users: map<SocketId, UserId>) returns (beats: seq<(UserId, SocketId)>)
    ensures forall s | s in users :: TimesBeaten(beats, users[s], s) == 1
    ensures forall b | b in beats :: b.1 in users && users[b.1] == b.0
  {
    beats := [];
    var todo := users.Keys;
    while todo != {}
      invariant todo <= users.Keys
      invariant forall s | s in users :: TimesBeaten(beats, users[s], s) == if s in todo then 0 else 1
      invariant forall b | b in beats :: b.1 in users && users[b.1] == b.0
      decreases |todo|
    {
      var s :| s in todo;
      beats := beats + [(users[s], s)];
      todo := todo - {s};
    }
  }

  // --- what every order of events keeps --------------------------------------------------------

  /** The two maps are inverse to each other, with no empty set. */
  ghost predicate Inverse(m: Maps) {
    && (forall s | s in m.socketUsers :: m.socketUsers[s] in m.userSockets && s in m.userSockets[m.socketUsers[s]])
    && (forall u, s | u in m.userSockets && s in m.userSockets[u] :: s in m.socketUsers && m.socketUsers[s] == u)
    && (forall u | u in m.userSockets :: m.userSockets[u] != {})
  }

  /** Every socket with a session is tracked, and its session has a name. */
  ghost predicate SessionsTracked(m: Maps) {
    forall s | s in m.socketSessions :: s in m.socketUsers && m.socketSessions[s] != ""
  }

  datatype Event =
    | Connects(id: SocketId, user: UserId, session: SessionId)
    | Disconnects(id: SocketId)
    | Revokes(sessions: seq<SessionId>)

  function Apply(m: Maps, e: Event): Maps {
    match e
    case Connects(id, user, session) => Connect(m, id, user, session)
    case Disconnects(id) => Disconnect(m, id)
    case Revokes(sessions) => Revoke(m, sessions)
  }

  /** The identifier of the connection is not tracked for another user, as Socket.IO's are not. */
  predicate FreshSocket(m: Maps, e: Event) {
    e.Connects? && e.id in m.socketUsers ==> m.socketUsers[e.id] == e.user
  }

  /** A step keeps the maps inverse exactly unless it connects an identifier that another user holds. */
  lemma StepKeepsInverse(m: Maps, e: Event)
    requires Inverse(m)
    ensures Inverse(Apply(m, e)) <==> FreshSocket(m, e)
  {
    var t := Apply(m, e);
    match e {
      case Connects(id, user, session) =>
        if !FreshSocket(m, e) {
          var other := m.socketUsers[id];
          assert id in t.userSockets[other] && t.socketUsers[id] != other;
        } else {
          assert id in t.userSockets[user];
        }
      case Disconnects(id) =>
        if id in m.socketUsers {
          var user := m.socketUsers[id];
          forall s | s in t.socketUsers && t.socketUsers[s] == user
            ensures user in t.userSockets && s in t.userSockets[user]
          {
            assert s in m.userSockets[user] - {id};
          }
        }
      case Revokes(_) =>
    }
  }

  lemma StepKeepsSessionsTracked(m: Maps, e: Event)
    requires SessionsTracked(m)
    ensures SessionsTracked(Apply(m, e))
  {
  }

  /** After a revocation no tracked socket is bound to a revoked session. */
  lemma RevokedSessionsAreUnbound(m: Maps, sessions: seq<SessionId>, s: SocketId)
    requires SessionsTracked(m) && s in Revoke(m, sessions).socketSessions
    ensures Revoke(m, sessions).socketSessions[s] !in sessions
  {
    assert m.socketSessions[s] !in Named(sessions);
  }

  predicate IsRun(m: Maps, events: seq<Event>)
    decreases |events|
  {
    events == [] || (FreshSocket(m, events[0]) && IsRun(Apply(m, events[0]), events[1..]))
  }

  function After(m: Maps, events: seq<Event>): Maps
    decreases |events|
  {
    if events == [] then m else After(Apply(m, events[0]), events[1..])
  }

  /** In every run from the empty maps the maps are inverse and every bound socket is tracked. */
  lemma {:induction false} RunKeepsMaps(m: Maps, events: seq<Event>)
    requires Inverse(m) && SessionsTracked(m) && IsRun(m, events)
    ensures Inverse(After(m, events)) && SessionsTracked(After(m, events))
    decreases |events|
  {
    if events != [] {
      StepKeepsInverse(m, events[0]);
      StepKeepsSessionsTracked(m, events[0]);
      RunKeepsMaps(Apply(m, events[0]), events[1..]);
    }
  }

  // --- the maps are their history --------------------------------------------------------------

  /** The event takes the socket away from its user. */
  predicate Leaves(e: Event, s: SocketId) { e.Disconnects? && e.id == s }

  /** The socket connected for the user, and has not left since. */
  predicate CameAs(events: seq<Event>, s: SocketId, user: UserId) {
    exists i | 0 <= i < |events| ::
      && events[i].Connects? && events[i].id == s && events[i].user == user
      && forall j | i < j < |events| :: !Leaves(events[j], s)
  }

  /** The event ends the binding of the socket to the session: the socket leaves, or connects with another
      session, or the session is revoked. */
  predicate Unbinds(e: Event, s: SocketId, session: SessionId) {
    match e
    case Connects(id, _, other) => id == s && other != "" && other != session
    case Disconnects(id) => id == s
    case Revokes(sessions) => session in sessions
  }

  predicate CameWith(events: seq<Event>, s: SocketId, session: SessionId) {
    exists i | 0 <= i < |events| ::
      && events[i].Connects? && events[i].id == s && events[i].session == session && session != ""
      && forall j | i < j < |events| :: !Unbinds(events[j], s, session)
  }

  predicate Holds(m: map<SocketId, string>, s: SocketId, x: string) { s in m && m[s] == x }

  lemma SplitRun(events: seq<Event>, s: SocketId, x: string)
    requires events != []
    ensures var e, rest := events[0], events[1..];
      && (CameAs(events, s, x) <==>
            CameAs(rest, s, x)
            || (e.Connects? && e.id == s && e.user == x && forall f | f in rest :: !Leaves(f, s)))
      && (CameWith(events, s, x) <==>
            CameWith(rest, s, x)
            || (e.Connects? && e.id == s && e.session == x && x != "" && forall f | f in rest :: !Unbinds(f, s, x)))
  {
    assert events == [events[0]] + events[1..];
  }

  lemma StepTracks(m: Maps, e: Event, s: SocketId, x: string)
    requires SessionsTracked(m) && FreshSocket(m, e)
    ensures Holds(Apply(m, e).socketUsers, s, x) <==>
      (e.Connects? && e.id == s && e.user == x) || (Holds(m.socketUsers, s, x) && !Leaves(e, s))
    ensures Holds(Apply(m, e).socketSessions, s, x) <==>
      (e.Connects? && e.id == s && e.session == x && x != "") || (Holds(m.socketSessions, s, x) && !Unbinds(e, s, x))
  {
  }

  /** Along a run, a socket is tracked for a user exactly if it connected for that user and has not left since, or
      was tracked so and has not left; and bound to a session exactly if it came with it, or had it, and neither has it
      left or come with another since, nor has the session been revoked. */
  lemma {:induction false} MapsAreHistory(m: Maps, events: seq<Event>, s: SocketId, x: string)
    requires SessionsTracked(m) && IsRun(m, events)
    ensures Holds(After(m, events).socketUsers, s, x) <==>
      CameAs(events, s, x) || (Holds(m.socketUsers, s, x) && forall e | e in events :: !Leaves(e, s))
    ensures Holds(After(m, events).socketSessions, s, x) <==>
      CameWith(events, s, x) || (Holds(m.socketSessions, s, x) && forall e | e in events :: !Unbinds(e, s, x))
    decreases |events|
  {
    if events != [] {
      var e, rest := events[0], events[1..];
      assert events == [e] + rest;
      StepKeepsSessionsTracked(m, e);
      StepTracks(m, e, s, x);
      MapsAreHistory(Apply(m, e), rest, s, x);
      SplitRun(events, s, x);
      hide CameAs, CameWith, Holds, Leaves, Unbinds;
    }
  }
}
