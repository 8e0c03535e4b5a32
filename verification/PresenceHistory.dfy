/** The presence registry against the history of a run: a user is connected exactly through the sockets that were
    registered, not taken off, and refreshed in time. */
module PresenceHistory {
  import opened Presence

  // --- what each operation leaves --------------------------------------------------------------

  /** A user is connected exactly if its hash is there and lists a socket. */
  lemma ConnectedExactly(st: Store, u: UserId, now: int)
    ensures Connected(st, u, now) <==> exists s :: ListsAt(st, u, s, now)
  {
    if Connected(st, u, now) {
      var s :| s in st.users[u].sockets;
      assert ListsAt(st, u, s, now);
    }
  }

  /** The sweep deletes exactly the hashes that are there and list nothing. */
  lemma SweepDeletesExactly(st: Store, u: UserId, now: int)
    ensures u in SweepStep(st, now).users <==>
      u in st.users && (now < st.users[u].expireAt ==> exists s :: s in st.users[u].sockets)
    ensures u in SweepStep(st, now).users ==> SweepStep(st, now).users[u] == st.users[u]
    ensures SweepStep(st, now).sockets == st.sockets
  {
  }

  predicate ListsAt(st: Store, u: UserId, s: SocketId, now: int) {
    u in st.users && now < st.users[u].expireAt && s in st.users[u].sockets
  }

  // --- the hash is its history -----------------------------------------------------------------

  /** From the history: socket `s` of user `u` was registered and not taken off since, and from then on up to
      `now` some socket of the user was registered or refreshed less than 30 s after the one before. */
  predicate ListedAlong(events: seq<Event>, n: nat, u: UserId, s: SocketId, now: int)
    requires n <= |events|
  {
    n > 0
    && var e := events[n - 1];
       match e.action
       case Register(user, socket, _) =>
         if user != u then ListedAlong(events, n - 1, u, s, now)
         else now < e.time + TTL && (socket == s || ListedAlong(events, n - 1, u, s, e.time))
       case Unregister(user, socket) => !(user == u && socket == s) && ListedAlong(events, n - 1, u, s, now)
       case Heartbeat(user, _) =>
         if user != u then ListedAlong(events, n - 1, u, s, now)
         else now < e.time + TTL && ListedAlong(events, n - 1, u, s, e.time)
       case Sweep => ListedAlong(events, n - 1, u, s, now)
  }

  lemma ListedNext(st: Store, e: Event, u: UserId, s: SocketId, now: int)
    requires Tidy(st, e.time) && e.time <= now
    ensures ListsAt(Apply(st, e), u, s, now) <==>
      match e.action
      case Register(user, socket, _) =>
        if user != u then ListsAt(st, u, s, now)
        else now < e.time + TTL && (socket == s || ListsAt(st, u, s, e.time))
      case Unregister(user, socket) => !(user == u && socket == s) && ListsAt(st, u, s, now)
      case Heartbeat(user, _) =>
        if user != u then ListsAt(st, u, s, now) else now < e.time + TTL && ListsAt(st, u, s, e.time)
      case Sweep => ListsAt(st, u, s, now)
  {
    match e.action
    case Unregister(user, socket) =>
      if user == u && u in st.users {
        assert s in st.users[u].sockets - {socket} <==> s in st.users[u].sockets && s != socket;
      }
    case _ =>
  }

  /** In every run the hash of a user is there and lists a socket exactly if the history says so. */
  lemma {:induction false} HashIsHistory(events: seq<Event>, n: nat, u: UserId, s: SocketId, now: int)
    requires n <= |events| && Ordered(events) && (n > 0 ==> events[n - 1].time <= now)
    ensures ListsAt(After(events, n), u, s, now) <==> ListedAlong(events, n, u, s, now)
  {
    if n > 0 {
      var e := events[n - 1];
      RunIsTidy(events, n - 1, e.time);
      HashIsHistory(events, n - 1, u, s, now);
      HashIsHistory(events, n - 1, u, s, e.time);
      ListedNext(After(events, n - 1), e, u, s, now);
      hide Apply, Tidy, ListsAt;
    }
  }

  /** So a user is connected exactly if some socket is listed so. */
  lemma ConnectedIsHistory(events: seq<Event>, n: nat, u: UserId, now: int)
    requires n <= |events| && Ordered(events) && (n > 0 ==> events[n - 1].time <= now)
    ensures Connected(After(events, n), u, now) <==> exists s :: ListedAlong(events, n, u, s, now)
  {
    ConnectedExactly(After(events, n), u, now);
    if s :| ListsAt(After(events, n), u, s, now) { HashIsHistory(events, n, u, s, now); }
    if s :| ListedAlong(events, n, u, s, now) { HashIsHistory(events, n, u, s, now); }
  }

  // --- the reverse key is its history ----------------------------------------------------------

  /** From the history: the socket was last registered for the user, not taken off since, and registered or
      refreshed less than 30 s apart up to `now`. */
  predicate HeldAlong(events: seq<Event>, n: nat, s: SocketId, u: UserId, now: int)
    requires n <= |events|
  {
    n > 0
    && var e := events[n - 1];
       match e.action
       case Register(user, socket, _) =>
         if socket != s then HeldAlong(events, n - 1, s, u, now) else user == u && now < e.time + TTL
       case Unregister(_, socket) => socket != s && HeldAlong(events, n - 1, s, u, now)
       case Heartbeat(_, socket) =>
         if socket != s then HeldAlong(events, n - 1, s, u, now)
         else now < e.time + TTL && HeldAlong(events, n - 1, s, u, e.time)
       case Sweep => HeldAlong(events, n - 1, s, u, now)
  }

  predicate Names(st: Store, s: SocketId, u: UserId, now: int) {
    s in st.sockets && now < st.sockets[s].expireAt && st.sockets[s].user == u
  }

  lemma NamesNext(st: Store, e: Event, s: SocketId, u: UserId, now: int)
    requires Tidy(st, e.time) && e.time <= now
    ensures Names(Apply(st, e), s, u, now) <==>
      match e.action
      case Register(user, socket, _) =>
        if socket != s then Names(st, s, u, now) else user == u && now < e.time + TTL
      case Unregister(_, socket) => socket != s && Names(st, s, u, now)
      case Heartbeat(_, socket) =>
        if socket != s then Names(st, s, u, now) else now < e.time + TTL && Names(st, s, u, e.time)
      case Sweep => Names(st, s, u, now)
  {
  }

  /** In every run the reverse key of a socket is there and names a user exactly if the history says so. */
  lemma {:induction false} ReverseIsHistory(events: seq<Event>, n: nat, s: SocketId, u: UserId, now: int)
    requires n <= |events| && Ordered(events) && (n > 0 ==> events[n - 1].time <= now)
    ensures Names(After(events, n), s, u, now) <==> HeldAlong(events, n, s, u, now)
  {
    if n > 0 {
      var e := events[n - 1];
      RunIsTidy(events, n - 1, e.time);
      ReverseIsHistory(events, n - 1, s, u, now);
      ReverseIsHistory(events, n - 1, s, u, e.time);
      NamesNext(After(events, n - 1), e, s, u, now);
      hide Apply, Tidy, Names;
    }
  }
}
