/** The presence registry of src/notifications/redis-presence.service.ts: a hash of sockets for each user
    and a reverse key for each socket, with a common time to live in a shared store.

    `Store` is the store's contents; a key with `expireAt` e is there exactly while the time is before
    e. As in Redis, removing the last field of a hash removes its key. Times are in milliseconds.
    A crashed pod is one that sends no further event. */
module Presence {

  type UserId = string
  type SocketId = string

  const TTL: int := 30_000

  datatype UserKey = UserKey(sockets: map<SocketId, string>, expireAt: int)
  datatype SocketKey = SocketKey(user: UserId, expireAt: int)

  datatype Store = Store(users: map<UserId, UserKey>, sockets: map<SocketId, SocketKey>)

  predicate UserLive(st: Store, u: UserId, now: int) {
    u in st.users && now < st.users[u].expireAt
  }

  predicate SocketLive(st: Store, s: SocketId, now: int) {
    s in st.sockets && now < st.sockets[s].expireAt
  }

  // --- the pipelines as functions --------------------------------------------------------------

  function RegisterStep(st: Store, u: UserId, s: SocketId, replica: string, now: int): Store {
    var fields := if UserLive(st, u, now) then st.users[u].sockets else map[];
    Store(st.users[u := UserKey(fields[s := replica], now + TTL)],
          st.sockets[s := SocketKey(u, now + TTL)])
  }

  function UnregisterStep(st: Store, u: UserId, s: SocketId, now: int): Store {
    var fields := if UserLive(st, u, now) then st.users[u].sockets - {s} else map[];
    Store(if fields == map[] then st.users - {u} else st.users[u := st.users[u].(sockets := fields)],
          st.sockets - {s})
  }

  function HeartbeatStep(st: Store, u: UserId, s: SocketId, now: int): Store {
    Store(if UserLive(st, u, now) then st.users[u := st.users[u].(expireAt := now + TTL)] else st.users,
          if SocketLive(st, s, now) then st.sockets[s := st.sockets[s].(expireAt := now + TTL)]
          else st.sockets)
  }

  predicate Connected(st: Store, u: UserId, now: int) {
    UserLive(st, u, now) && |st.users[u].sockets| > 0
  }

  /** The sweep deletes the live hashes that are empty. */
  function SweepStep(st: Store, now: int): Store {
    st.(users := map u | u in st.users && !(UserLive(st, u, now) && st.users[u].sockets == map[]) :: st.users[u])
  }

  // --- the service -----------------------------------------------------------------------------

  class RedisPresenceService {
    const instanceId: string
    var users: map<UserId, UserKey>
    var sockets: map<SocketId, SocketKey>

    ghost function Contents(): Store
      reads this
    {
      Store(users, sockets)
    }

    constructor (instanceId: string)
      ensures this.instanceId == instanceId && Contents() == Store(map[], map[])
    {
      this.instanceId, users, sockets := instanceId, map[], map[];
    }

    method Register(u: UserId, s: SocketId, now: int)
      modifies this
      ensures Contents() == RegisterStep(old(Contents()), u, s, instanceId, now)
    {
      var fields := map[];
      if u in users && now < users[u].expireAt { fields := users[u].sockets; }
      users := users[u := UserKey(fields[s := instanceId], now + TTL)];
      sockets := sockets[s := SocketKey(u, now + TTL)];
    }

    method Unregister(u: UserId, s: SocketId, now: int)
      modifies this
      ensures Contents() == UnregisterStep(old(Contents()), u, s, now)
    {
      var fields := map[];
      if u in users && now < users[u].expireAt { fields := users[u].sockets - {s}; }
      if fields == map[] {
        users := users - {u};
      } else {
        users := users[u := users[u].(sockets := fields)];
      }
      sockets := sockets - {s};
    }

    method Heartbeat(u: UserId, s: SocketId, now: int)
      modifies this
      ensures Contents() == HeartbeatStep(old(Contents()), u, s, now)
    {
      if u in users && now < users[u].expireAt {
        users := users[u := users[u].(expireAt := now + TTL)];
      }
      if s in sockets && now < sockets[s].expireAt {
        sockets := sockets[s := sockets[s].(expireAt := now + TTL)];
      }
    }

    method IsUserConnected(u: UserId, now: int) returns (connected: bool)
      ensures connected == Connected(Contents(), u, now)
    {
      var count := if u in users && now < users[u].expireAt then |users[u].sockets| else 0;
      return count > 0;
    }

    method CleanupStaleEntries(now: int)
      modifies this
      ensures Contents() == SweepStep(old(Contents()), now)
    {
      var keys := set u | u in users && now < users[u].expireAt;
      ghost var before := Contents();
      var todo := keys;
      while todo != {}
        invariant todo <= keys && sockets == before.sockets
        invariant users == map u | u in before.users
          && (u in todo || u !in keys || before.users[u].sockets != map[]) :: before.users[u]
        decreases |todo|
      {
        var key :| key in todo;
        if users[key].sockets == map[] { users := users - {key}; }
        todo := todo - {key};
      }
      assert Contents() == SweepStep(before, now);
    }
  }

  // --- runs ------------------------------------------------------------------------------------

  datatype Action =
    | Register(u: UserId, s: SocketId, replica: string)
    | Unregister(u: UserId, s: SocketId)
    | Heartbeat(u: UserId, s: SocketId)
    | Sweep

  datatype Event = Event(time: int, action: Action)

  predicate Ordered(events: seq<Event>) {
    forall i, j | 0 <= i <= j < |events| :: events[i].time <= events[j].time
  }

  function Apply(st: Store, e: Event): Store {
    match e.action
    case Register(u, s, replica) => RegisterStep(st, u, s, replica, e.time)
    case Unregister(u, s) => UnregisterStep(st, u, s, e.time)
    case Heartbeat(u, s) => HeartbeatStep(st, u, s, e.time)
    case Sweep => SweepStep(st, e.time)
  }

  /** The store after the first `n` events. */
  function After(events: seq<Event>, n: nat): Store
    requires n <= |events|
  {
    if n == 0 then Store(map[], map[]) else Apply(After(events, n - 1), events[n - 1])
  }

  /** The action refreshes socket `s` of user `u`. */
  predicate Beats(a: Action, u: UserId, s: SocketId) {
    (a.Register? || a.Heartbeat?) && a.u == u && a.s == s
  }

  predicate BeatsUser(a: Action, u: UserId) {
    (a.Register? || a.Heartbeat?) && a.u == u
  }

  // --- no empty hash, no late expiry -----------------------------------------------------------

  ghost predicate Tidy(st: Store, now: int) {
    && (forall u | u in st.users :: st.users[u].sockets != map[] && st.users[u].expireAt <= now + TTL)
    && (forall s | s in st.sockets :: st.sockets[s].expireAt <= now + TTL)
  }

  lemma {:induction false} RunIsTidy(events: seq<Event>, n: nat, now: int)
    requires n <= |events| && Ordered(events) && (n > 0 ==> events[n - 1].time <= now)
    ensures Tidy(After(events, n), now)
  {
    if n > 0 {
      RunIsTidy(events, n - 1, events[n - 1].time);
      var a := events[n - 1].action;
      assert a.Register? ==> a.s in After(events, n).users[a.u].sockets;
    }
  }

  /** The stale sweep finds nothing to delete, at any time of any run. */
  lemma SweepUnobservable(events: seq<Event>, n: nat, now: int)
    requires n <= |events| && Ordered(events) && (n > 0 ==> events[n - 1].time <= now)
    ensures SweepStep(After(events, n), now) == After(events, n)
  {
    RunIsTidy(events, n, now);
  }

  // --- the sweep is three calls ----------------------------------------------------------------

  /** What `hgetall` returns for a user's hash is empty. */
  predicate LooksStale(st: Store, u: UserId, now: int) {
    !UserLive(st, u, now) || st.users[u].sockets == map[]
  }

  /** `del` of a hash that looked stale when it was read, possibly some time before. */
  function LateDelete(st: Store, u: UserId): Store { st.(users := st.users - {u}) }

  /** In every run, deleting the hash changes whether anyone is connected exactly if the hash no longer
      looks stale: the user has registered between the read and the deletion. */
  lemma LateDeleteObservable(events: seq<Event>, n: nat, u: UserId, now: int)
    requires n <= |events| && Ordered(events) && (n > 0 ==> events[n - 1].time <= now)
    ensures var st := After(events, n);
      (forall v :: Connected(LateDelete(st, u), v, now) == Connected(st, v, now)) <==> LooksStale(st, u, now)
  {
    RunIsTidy(events, n, now);
    var st := After(events, n);
    if !LooksStale(st, u, now) {
      assert |st.users[u].sockets| > 0;
      assert Connected(st, u, now) && !Connected(LateDelete(st, u), u, now);
    }
  }

  /** The race: a user whose hash looked stale comes back, and the deletion takes the new entry along. */
  lemma SweepRace(u: UserId, s: SocketId, replica: string)
    ensures var events :=
        [Event(0, Register(u, s, replica)), Event(1, Unregister(u, s)), Event(3, Register(u, s, replica))];
      Ordered(events) && LooksStale(After(events, 2), u, 2)
      && Connected(After(events, 3), u, 4) && !Connected(LateDelete(After(events, 3), u), u, 4)
  {
    var events :=
      [Event(0, Register(u, s, replica)), Event(1, Unregister(u, s)), Event(3, Register(u, s, replica))];
    assert After(events, 0) == Store(map[], map[]);
    assert After(events, 1).users[u].sockets == map[s := replica];
    assert After(events, 1).users[u].sockets - {s} == map[];
    assert s in After(events, 3).users[u].sockets;
  }

  // --- connected means recently refreshed ------------------------------------------------------

  lemma {:induction false} ExpiryIsRefresh(events: seq<Event>, n: nat, u: UserId) returns (k: nat)
    requires n <= |events| && u in After(events, n).users
    ensures k < n && BeatsUser(events[k].action, u) && After(events, n).users[u].expireAt == events[k].time + TTL
  {
    var before, a := After(events, n - 1), events[n - 1].action;
    if BeatsUser(a, u) && (a.Register? || UserLive(before, u, events[n - 1].time)) {
      k := n - 1;
    } else {
      k := ExpiryIsRefresh(events, n - 1, u);
    }
  }

  /** Whenever the registry says that a user is connected, some socket of that user was registered or
      refreshed less than 30 s ago, whatever pods have crashed. */
  lemma ConnectedMeansRefreshed(events: seq<Event>, n: nat, u: UserId, now: int)
    requires n <= |events| && Connected(After(events, n), u, now)
    ensures exists k | 0 <= k < n :: BeatsUser(events[k].action, u) && now < events[k].time + TTL
  {
    var k := ExpiryIsRefresh(events, n, u);
  }

  // --- a socket that beats keeps its user connected --------------------------------------------

  /** When socket `s` of user `u` was last refreshed before event `n`. */
  function LastBeat(events: seq<Event>, i: nat, n: nat, u: UserId, s: SocketId): int
    requires i < n <= |events|
  {
    if n == i + 1 || Beats(events[n - 1].action, u, s) then events[n - 1].time
    else LastBeat(events, i, n - 1, u, s)
  }

  /** Event `i` registers the socket, no event since unregisters it, and whenever an event happens, and
      at `now`, the last refresh of the socket is less than the TTL ago. */
  ghost predicate Beating(events: seq<Event>, i: nat, n: nat, u: UserId, s: SocketId, now: int)
    requires i < n <= |events|
  {
    && events[i].action.Register? && Beats(events[i].action, u, s)
    && (forall k | i < k < n :: !(events[k].action.Unregister? && events[k].action.u == u && events[k].action.s == s))
    && (forall k | i < k < n :: events[k].time < LastBeat(events, i, k, u, s) + TTL)
    && now < LastBeat(events, i, n, u, s) + TTL
  }

  predicate Listed(st: Store, u: UserId, s: SocketId) {
    u in st.users && s in st.users[u].sockets
  }

  /** While the hash is live, only removing the socket itself takes it off the list, and the expiry
      does not move back. */
  lemma ListedStays(st: Store, e: Event, u: UserId, s: SocketId)
    requires Listed(st, u, s) && UserLive(st, u, e.time) && Tidy(st, e.time)
    requires !(e.action.Unregister? && e.action.u == u && e.action.s == s)
    ensures Listed(Apply(st, e), u, s)
    ensures st.users[u].expireAt <= Apply(st, e).users[u].expireAt
    ensures Beats(e.action, u, s) ==> Apply(st, e).users[u].expireAt == e.time + TTL
  {
    if e.action.Unregister? && e.action.u == u { assert s in st.users[u].sockets - {e.action.s}; }
  }

  lemma BeatingBefore(events: seq<Event>, i: nat, n: nat, u: UserId, s: SocketId, now: int)
    requires i + 1 < n <= |events| && Beating(events, i, n, u, s, now)
    ensures Beating(events, i, n - 1, u, s, events[n - 1].time)
    ensures var a := events[n - 1].action; !(a.Unregister? && a.u == u && a.s == s)
    ensures events[n - 1].time < LastBeat(events, i, n - 1, u, s) + TTL
  {
  }

  /** The hash lists the socket, and lives for the TTL from its last refresh on at least. */
  predicate ListedSince(events: seq<Event>, i: nat, n: nat, u: UserId, s: SocketId)
    requires i < n <= |events|
  {
    Listed(After(events, n), u, s)
    && LastBeat(events, i, n, u, s) + TTL <= After(events, n).users[u].expireAt
  }

  lemma ListedNext(events: seq<Event>, i: nat, n: nat, u: UserId, s: SocketId)
    requires i + 1 < n <= |events| && Ordered(events) && ListedSince(events, i, n - 1, u, s)
    requires var a := events[n - 1].action; !(a.Unregister? && a.u == u && a.s == s)
    requires events[n - 1].time < LastBeat(events, i, n - 1, u, s) + TTL
    ensures ListedSince(events, i, n, u, s)
  {
    RunIsTidy(events, n - 1, events[n - 1].time);
    hide Apply, Tidy;
    ListedStays(After(events, n - 1), events[n - 1], u, s);
  }

  lemma {:induction false} BeatingSocketIsListed(events: seq<Event>, i: nat, n: nat, u: UserId, s: SocketId, now: int)
    requires i < n <= |events| && Ordered(events) && Beating(events, i, n, u, s, now)
    ensures ListedSince(events, i, n, u, s)
  {
    hide After, LastBeat, ListedSince;
    if n > i + 1 {
      BeatingBefore(events, i, n, u, s, now);
      BeatingSocketIsListed(events, i, n - 1, u, s, events[n - 1].time);
      ListedNext(events, i, n, u, s);
    } else {
      RegisterLists(events, i, u, s);
    }
  }

  lemma RegisterLists(events: seq<Event>, i: nat, u: UserId, s: SocketId)
    requires i < |events| && events[i].action.Register? && Beats(events[i].action, u, s)
    ensures ListedSince(events, i, i + 1, u, s)
  {
  }

  /** Between a socket's registration and its removal, its user is connected at every instant, as long
      as refreshes are less than 30 s apart. */
  lemma BeatingMeansConnected(events: seq<Event>, i: nat, n: nat, u: UserId, s: SocketId, now: int)
    requires i < n <= |events| && Ordered(events) && Beating(events, i, n, u, s, now)
    ensures Connected(After(events, n), u, now)
  {
    BeatingSocketIsListed(events, i, n, u, s, now);
  }

  // --- the reverse keys ------------------------------------------------------------------------

  /** A live reverse key names a user whose live hash lists the socket. */
  ghost predicate ReverseAgrees(st: Store, now: int) {
    forall s | SocketLive(st, s, now) ::
      var u := st.sockets[s].user;
      u in st.users && s in st.users[u].sockets && st.sockets[s].expireAt <= st.users[u].expireAt
  }

  /** Heartbeats name the user that the socket was last registered for, as the gateway's do. */
  ghost predicate GatewayHeartbeats(events: seq<Event>) {
    forall n | 0 <= n < |events| && events[n].action.Heartbeat? ::
      events[n].action.s in After(events, n).sockets ==>
        After(events, n).sockets[events[n].action.s].user == events[n].action.u
  }

  lemma {:induction false} RunKeepsReverse(events: seq<Event>, n: nat, now: int)
    requires n <= |events| && Ordered(events) && GatewayHeartbeats(events)
    requires n > 0 ==> events[n - 1].time <= now
    ensures ReverseAgrees(After(events, n), now)
  {
    if n > 0 {
      var e := events[n - 1];
      RunKeepsReverse(events, n - 1, e.time);
      RunIsTidy(events, n - 1, e.time);
      var before, after := After(events, n - 1), After(events, n);
      forall s | SocketLive(after, s, now)
        ensures var u := after.sockets[s].user;
          u in after.users && s in after.users[u].sockets && after.sockets[s].expireAt <= after.users[u].expireAt
      {
        if SocketLive(before, s, e.time) {
          var u := before.sockets[s].user;
          assert u in before.users && s in before.users[u].sockets;
          if e.action.Unregister? && e.action.u == u { assert s in before.users[u].sockets - {e.action.s}; }
        }
      }
    }
  }
}
