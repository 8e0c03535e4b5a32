/** The gateways of several pods over one presence registry: src/notifications/notifications.gateway.ts
    with src/notifications/redis-presence.service.ts. A presence call may fail, which the gateway ignores,
    and a pod may crash. */
module PresenceGateway {
  import Gateway
  import Presence

  type PodId = string

  /** The maps of each running pod, and the presence actions that have reached the store so far. */
  datatype World = World(pods: map<PodId, Gateway.Maps>, actions: seq<Presence.Event>)

  datatype Event =
    | Starts(pod: PodId)
    | Crashes(pod: PodId)
    | Connects(pod: PodId, id: string, user: string, session: string, reached: bool)
    | Disconnects(pod: PodId, id: string, reached: bool)
    | Beats(pod: PodId, id: string, reached: bool)  // one turn of the heartbeat loop
    | Revokes(pod: PodId, sessions: seq<string>)
    | Sweeps

  function StoreOf(w: World): Presence.Store { Presence.After(w.actions, |w.actions|) }

  /** A socket is only known for one user, to every pod and to the store: its identifier is not used again. */
  predicate HeldFor(w: World, id: string, user: string) {
    && (forall p | p in w.pods && id in w.pods[p].socketUsers :: w.pods[p].socketUsers[id] == user)
    && (id in StoreOf(w).sockets ==> StoreOf(w).sockets[id].user == user)
  }

  predicate Enabled(w: World, e: Event) {
    match e
    case Starts(pod) => pod !in w.pods
    case Crashes(pod) => pod in w.pods
    case Connects(pod, id, user, _, _) => pod in w.pods && HeldFor(w, id, user)
    case Disconnects(pod, _, _) => pod in w.pods
    case Beats(pod, id, _) => pod in w.pods && id in w.pods[pod].socketUsers
    case Revokes(pod, _) => pod in w.pods
    case Sweeps => true
  }

  /** The presence action that the event takes, if any. */
  function ActionOf(w: World, e: Event, now: int): seq<Presence.Event>
    requires Enabled(w, e)
  {
    match e
    case Connects(pod, id, user, _, true) => [Presence.Event(now, Presence.Register(user, id, pod))]
    case Disconnects(pod, id, true) =>
      if id in w.pods[pod].socketUsers
      then [Presence.Event(now, Presence.Unregister(w.pods[pod].socketUsers[id], id))] else []
    case Beats(pod, id, true) => [Presence.Event(now, Presence.Heartbeat(w.pods[pod].socketUsers[id], id))]
    case Sweeps => [Presence.Event(now, Presence.Sweep)]
    case _ => []
  }

  function PodsAfter(w: World, e: Event): map<PodId, Gateway.Maps>
    requires Enabled(w, e)
  {
    match e
    case Starts(pod) => w.pods[pod := Gateway.Maps(map[], map[], map[])]
    case Crashes(pod) => w.pods - {pod}
    case Connects(pod, id, user, session, _) => w.pods[pod := Gateway.Connect(w.pods[pod], id, user, session)]
    case Disconnects(pod, id, _) => w.pods[pod := Gateway.Disconnect(w.pods[pod], id)]
    case Beats(_, _, _) => w.pods
    case Revokes(pod, sessions) => w.pods[pod := Gateway.Revoke(w.pods[pod], sessions)]
    case Sweeps => w.pods
  }

  function Step(w: World, e: Event, now: int): World
    requires Enabled(w, e)
  {
    World(PodsAfter(w, e), w.actions + ActionOf(w, e, now))
  }

  const EMPTY := World(map[], [])

  /** Events with their times, which do not go back. */
  datatype Timed = Timed(time: int, event: Event)

  ghost predicate IsRun(w: World, now: int, run: seq<Timed>)
    decreases |run|
  {
    run == []
    || (now <= run[0].time && Enabled(w, run[0].event)
        && IsRun(Step(w, run[0].event, run[0].time), run[0].time, run[1..]))
  }

  ghost function After(w: World, now: int, run: seq<Timed>): World
    requires IsRun(w, now, run)
    decreases |run|
  {
    if run == [] then w else After(Step(w, run[0].event, run[0].time), run[0].time, run[1..])
  }

  // --- what the composition keeps --------------------------------------------------------------

  /** The store and the pods agree on the user of every socket, and the heartbeats sent so far have named
      the registered user. */
  ghost predicate Agree(w: World, now: int) {
    && (forall p, s | p in w.pods && s in w.pods[p].socketUsers && s in StoreOf(w).sockets ::
          StoreOf(w).sockets[s].user == w.pods[p].socketUsers[s])
    && (forall p | p in w.pods :: Gateway.Inverse(w.pods[p]) && Gateway.SessionsTracked(w.pods[p]))
    && Presence.Ordered(w.actions) && Presence.GatewayHeartbeats(w.actions)
    && (w.actions != [] ==> w.actions[|w.actions| - 1].time <= now)
  }

  lemma {:induction false} SamePrefix(actions: seq<Presence.Event>, more: seq<Presence.Event>, n: nat)
    requires n <= |actions|
    ensures Presence.After(actions + more, n) == Presence.After(actions, n)
  {
    if n > 0 {
      SamePrefix(actions, more, n - 1);
      assert (actions + more)[n - 1] == actions[n - 1];
    }
  }

  lemma OneMore(actions: seq<Presence.Event>, a: Presence.Event)
    ensures Presence.After(actions + [a], |actions| + 1) == Presence.Apply(Presence.After(actions, |actions|), a)
  {
    SamePrefix(actions, [a], |actions|);
    assert (actions + [a])[|actions|] == a;
  }

  /** A further heartbeat keeps the heartbeats those of registered users, if it is one itself. */
  lemma OneMoreHeartbeat(actions: seq<Presence.Event>, a: Presence.Event)
    requires Presence.GatewayHeartbeats(actions)
    requires var st := Presence.After(actions, |actions|);
      a.action.Heartbeat? && a.action.s in st.sockets ==> st.sockets[a.action.s].user == a.action.u
    ensures Presence.GatewayHeartbeats(actions + [a])
  {
    var more := actions + [a];
    forall n | 0 <= n < |more| && more[n].action.Heartbeat?
      ensures more[n].action.s in Presence.After(more, n).sockets ==>
        Presence.After(more, n).sockets[more[n].action.s].user == more[n].action.u
    {
      SamePrefix(actions, [a], n);
      if n < |actions| { assert more[n] == actions[n]; }
    }
  }

  lemma OneMoreOrdered(actions: seq<Presence.Event>, a: Presence.Event, now: int)
    requires Presence.Ordered(actions) && (actions != [] ==> actions[|actions| - 1].time <= now) && a.time >= now
    ensures Presence.Ordered(actions + [a])
  {
  }

  /** The users that the store has for sockets after one more action. */
  lemma SocketUsersAfter(st: Presence.Store, a: Presence.Event)
    ensures forall s | s in Presence.Apply(st, a).sockets ::
      if a.action.Register? && s == a.action.s then Presence.Apply(st, a).sockets[s].user == a.action.u
      else s in st.sockets && Presence.Apply(st, a).sockets[s].user == st.sockets[s].user
  {
  }

  lemma StoreAfter(w: World, e: Event, now: int)
    requires Enabled(w, e)
    ensures var t, a := Step(w, e, now), ActionOf(w, e, now);
      |a| <= 1 && StoreOf(t) == if a == [] then StoreOf(w) else Presence.Apply(StoreOf(w), a[0])
  {
    var a := ActionOf(w, e, now);
    if a == [] {
      assert w.actions + a == w.actions;
    } else {
      assert a == [a[0]];
      OneMore(w.actions, a[0]);
    }
  }

  lemma ActionsStayInOrder(w: World, e: Event, now: int, later: int)
    requires Agree(w, now) && now <= later && Enabled(w, e)
    ensures var t := Step(w, e, later);
      && Presence.Ordered(t.actions) && Presence.GatewayHeartbeats(t.actions)
      && (t.actions != [] ==> t.actions[|t.actions| - 1].time <= later)
  {
    var a := ActionOf(w, e, later);
    if a == [] {
      assert w.actions + a == w.actions;
    } else {
      assert a == [a[0]];
      OneMoreOrdered(w.actions, a[0], now);
      assert StoreOf(w) == Presence.After(w.actions, |w.actions|);
      if e.Beats? { assert a[0].action == Presence.Heartbeat(w.pods[e.pod].socketUsers[e.id], e.id); }
      OneMoreHeartbeat(w.actions, a[0]);
    }
  }

  lemma PodsStayInverse(w: World, e: Event, now: int)
    requires Agree(w, now) && Enabled(w, e)
    ensures var pods := PodsAfter(w, e);
      forall p | p in pods :: Gateway.Inverse(pods[p]) && Gateway.SessionsTracked(pods[p])
  {
    hide Gateway.Inverse, Gateway.SessionsTracked;
    match e
    case Starts(pod) => NewPod();
    case Connects(pod, id, user, session, _) => PodStep(w.pods[pod], Gateway.Connects(id, user, session));
    case Disconnects(pod, id, _) => PodStep(w.pods[pod], Gateway.Disconnects(id));
    case Revokes(pod, sessions) => PodStep(w.pods[pod], Gateway.Revokes(sessions));
    case _ =>
  }

  lemma NewPod()
    ensures Gateway.Inverse(Gateway.Maps(map[], map[], map[]))
    ensures Gateway.SessionsTracked(Gateway.Maps(map[], map[], map[]))
  {
  }

  lemma PodStep(m: Gateway.Maps, e: Gateway.Event)
    requires Gateway.Inverse(m) && Gateway.SessionsTracked(m) && Gateway.FreshSocket(m, e)
    ensures Gateway.Inverse(Gateway.Apply(m, e)) && Gateway.SessionsTracked(Gateway.Apply(m, e))
  {
    Gateway.StepKeepsInverse(m, e);
    Gateway.StepKeepsSessionsTracked(m, e);
  }

  predicate PairInLine(w: World, p: PodId, s: string) {
    p in w.pods && s in w.pods[p].socketUsers && s in StoreOf(w).sockets ==>
      StoreOf(w).sockets[s].user == w.pods[p].socketUsers[s]
  }

  lemma PairStaysInLine(w: World, e: Event, later: int, p: PodId, s: string)
    requires PairInLine(w, p, s) && Enabled(w, e)
    ensures PairInLine(Step(w, e, later), p, s)
  {
    StoreAfter(w, e, later);
    var a := ActionOf(w, e, later);
    if a != [] { SocketUsersAfter(StoreOf(w), a[0]); }
    hide Presence.Apply, StoreOf;
  }

  /** After the step the store still has, for every tracked socket, the user that the pod has. */
  lemma StoreStaysInLine(w: World, e: Event, now: int, later: int)
    requires Agree(w, now) && Enabled(w, e)
    ensures var t := Step(w, e, later);
      forall p, s | p in t.pods && s in t.pods[p].socketUsers && s in StoreOf(t).sockets ::
        StoreOf(t).sockets[s].user == t.pods[p].socketUsers[s]
  {
    var t := Step(w, e, later);
    forall p, s ensures PairInLine(t, p, s) {
      assert PairInLine(w, p, s);
      PairStaysInLine(w, e, later, p, s);
    }
    hide Step, StoreOf, Agree;
    forall p, s | p in t.pods && s in t.pods[p].socketUsers && s in StoreOf(t).sockets
      ensures StoreOf(t).sockets[s].user == t.pods[p].socketUsers[s]
    {
      assert PairInLine(t, p, s);
    }
  }

  lemma StepKeepsAgree(w: World, e: Event, now: int, later: int)
    requires Agree(w, now) && now <= later && Enabled(w, e)
    ensures Agree(Step(w, e, later), later)
  {
    StoreStaysInLine(w, e, now, later);
    PodsStayInverse(w, e, now);
    ActionsStayInOrder(w, e, now, later);
  }

  lemma {:induction false} RunKeepsAgree(w: World, now: int, run: seq<Timed>, end: int)
    requires Agree(w, now) && IsRun(w, now, run) && EndsBy(run, end) && now <= end
    ensures Agree(After(w, now, run), end)
    decreases |run|
  {
    if run == [] {
      AgreeLater(w, now, end);
    } else {
      hide Step, Enabled, Agree, EndsBy;
      var time, t, rest := run[0].time, Step(w, run[0].event, run[0].time), run[1..];
      StepKeepsAgree(w, run[0].event, now, time);
      RestEndsBy(w, now, run, end);
      RunKeepsAgree(t, time, rest, end);
    }
  }

  predicate EndsBy(run: seq<Timed>, end: int) { run != [] ==> run[|run| - 1].time <= end }

  lemma AgreeLater(w: World, now: int, later: int)
    requires Agree(w, now) && now <= later
    ensures Agree(w, later)
  {
  }

  lemma RestEndsBy(w: World, now: int, run: seq<Timed>, end: int)
    requires run != [] && IsRun(w, now, run) && EndsBy(run, end)
    ensures run[0].time <= end && EndsBy(run[1..], end)
  {
    hide Step, Enabled;
    TimesGrow(w, now, run);
    if |run| > 1 { assert run[1..][|run| - 2] == run[|run| - 1]; }
  }

  lemma {:induction false} TimesGrow(w: World, now: int, run: seq<Timed>)
    requires IsRun(w, now, run) && run != []
    ensures run[0].time <= run[|run| - 1].time
    decreases |run|
  {
    if |run| > 1 {
      hide Step, Enabled;
      TimesGrow(Step(w, run[0].event, run[0].time), run[0].time, run[1..]);
    }
  }

  lemma EmptyAgrees()
    ensures Agree(EMPTY, 0)
  {
  }

  /** In every run of pods that start, crash, connect, disconnect and beat, with presence calls that may
      fail: every live reverse key names a user whose live hash lists the socket, the store and every pod
      agree on each tracked socket's user, and each pod's maps are inverse. */
  lemma RunKeepsReverse(run: seq<Timed>, end: int)
    requires IsRun(EMPTY, 0, run) && 0 <= end && (run != [] ==> run[|run| - 1].time <= end)
    ensures var w := After(EMPTY, 0, run);
      && Presence.ReverseAgrees(StoreOf(w), end)
      && (forall p, s | p in w.pods && s in w.pods[p].socketUsers && s in StoreOf(w).sockets ::
            StoreOf(w).sockets[s].user == w.pods[p].socketUsers[s])
      && (forall p | p in w.pods :: Gateway.Inverse(w.pods[p]))
  {
    hide Step, Enabled, Presence.ReverseAgrees;
    EmptyAgrees();
    RunKeepsAgree(EMPTY, 0, run, end);
    hide After, IsRun;
    var w := After(EMPTY, 0, run);
    Presence.RunKeepsReverse(w.actions, |w.actions|, end);
  }

  // --- a socket whose pod beats keeps its user connected ---------------------------------------

  /** A call reaches the store that registers socket `id` of `user`, or refreshes it. */
  predicate Refreshes(w: World, e: Event, id: string, user: string)
    requires Enabled(w, e)
  {
    match e
    case Connects(_, i, u, _, reached) => reached && i == id && u == user
    case Beats(pod, i, reached) => reached && i == id && w.pods[pod].socketUsers[i] == user
    case _ => false
  }

  /** A call reaches the store that takes socket `id` of `user` off it. */
  predicate Removes(w: World, e: Event, id: string, user: string)
    requires Enabled(w, e)
  {
    match e
    case Disconnects(pod, i, reached) =>
      reached && i == id && i in w.pods[pod].socketUsers && w.pods[pod].socketUsers[i] == user
    case _ => false
  }

  /** Along the run and up to `end`, the calls for the socket that reach the store are less than 30 s apart,
      the last one so far at `last`, and none takes the socket off. Other calls may fail. */
  ghost predicate KeepsBeating(w: World, now: int, run: seq<Timed>, id: string, user: string, last: int, end: int)
    requires IsRun(w, now, run)
    decreases |run|
  {
    if run == [] then end < last + Presence.TTL
    else
      var e, time := run[0].event, run[0].time;
      && time < last + Presence.TTL && !Removes(w, e, id, user)
      && KeepsBeating(Step(w, e, time), time, run[1..], id, user,
                      if Refreshes(w, e, id, user) then time else last, end)
  }

  /** The store lists the socket, in a hash that lives for 30 s from `last` on at least. */
  ghost predicate Covered(w: World, id: string, user: string, last: int) {
    Presence.Listed(StoreOf(w), user, id) && last + Presence.TTL <= StoreOf(w).users[user].expireAt
  }

  lemma StepKeepsCovered(w: World, e: Event, now: int, later: int, id: string, user: string, last: int)
    requires Agree(w, now) && now <= later && Enabled(w, e) && Covered(w, id, user, last)
    requires later < last + Presence.TTL && !Removes(w, e, id, user)
    ensures Covered(Step(w, e, later), id, user, if Refreshes(w, e, id, user) then later else last)
  {
    StoreAfter(w, e, later);
    Presence.RunIsTidy(w.actions, |w.actions|, later);
    var a := ActionOf(w, e, later);
    if a != [] {
      assert Presence.Beats(a[0].action, user, id) <==> Refreshes(w, e, id, user);
      hide Presence.Apply, Presence.Tidy, Agree, Enabled;
      Presence.ListedStays(StoreOf(w), a[0], user, id);
    }
  }

  lemma {:induction false} BeatingKeepsCovered(w: World, now: int, run: seq<Timed>, id: string, user: string,
                                               last: int, end: int)
    requires Agree(w, now) && IsRun(w, now, run) && Covered(w, id, user, last)
    requires KeepsBeating(w, now, run, id, user, last, end)
    ensures Presence.Connected(StoreOf(After(w, now, run)), user, end)
    decreases |run|
  {
    if run != [] {
      hide Step, Enabled, Agree, Covered, Refreshes, Removes;
      var e, time := run[0].event, run[0].time;
      StepKeepsCovered(w, e, now, time, id, user, last);
      StepKeepsAgree(w, e, now, time);
      BeatingKeepsCovered(Step(w, e, time), time, run[1..], id, user,
                          if Refreshes(w, e, id, user) then time else last, end);
    }
  }

  lemma ConnectCovers(w: World, pod: PodId, id: string, user: string, session: string, now: int)
    requires Enabled(w, Connects(pod, id, user, session, true))
    ensures Covered(Step(w, Connects(pod, id, user, session, true), now), id, user, now)
  {
    StoreAfter(w, Connects(pod, id, user, session, true), now);
  }

  /** From its registration on, in any run of several pods, a socket keeps its user connected at every
      instant, as long as the calls for it that reach the store are less than 30 s apart. */
  lemma BeatingMeansConnected(before: seq<Timed>, pod: PodId, id: string, user: string, session: string,
                              time: int, run: seq<Timed>, end: int)
    requires IsRun(EMPTY, 0, before) && 0 <= time && EndsBy(before, time)
    requires Enabled(After(EMPTY, 0, before), Connects(pod, id, user, session, true))
    requires var w := Step(After(EMPTY, 0, before), Connects(pod, id, user, session, true), time);
      IsRun(w, time, run) && KeepsBeating(w, time, run, id, user, time, end)
    ensures var w := Step(After(EMPTY, 0, before), Connects(pod, id, user, session, true), time);
      Presence.Connected(StoreOf(After(w, time, run)), user, end)
  {
    hide Step, Enabled, After, IsRun, KeepsBeating, Covered;
    EmptyAgrees();
    RunKeepsAgree(EMPTY, 0, before, time);
    var v, e := After(EMPTY, 0, before), Connects(pod, id, user, session, true);
    StepKeepsAgree(v, e, time, time);
    ConnectCovers(v, pod, id, user, session, time);
    BeatingKeepsCovered(Step(v, e, time), time, run, id, user, time, end);
  }

  predicate ListsNow(st: Presence.Store, u: string, s: string, now: int) {
    Presence.UserLive(st, u, now) && s in st.users[u].sockets
  }

  lemma UnregisterTakesOff(st: Presence.Store, user: string, id: string, now: int, u: string, s: string)
    ensures ListsNow(Presence.UnregisterStep(st, user, id, now), u, s, now) <==>
      ListsNow(st, u, s, now) && !(u == user && s == id)
  {
    if Presence.UserLive(st, user, now) && u == user && s in st.users[user].sockets && s != id {
      assert s in st.users[user].sockets - {id};
    }
  }

  /** The disconnection of a tracked socket that reaches the store takes it off the list of its user, whatever
      other pods do, and takes off nothing else. */
  lemma DisconnectTakesOff(run: seq<Timed>, pod: PodId, id: string, time: int, u: string, s: string)
    requires IsRun(EMPTY, 0, run) && 0 <= time && EndsBy(run, time)
    requires var w := After(EMPTY, 0, run);
      Enabled(w, Disconnects(pod, id, true)) && id in w.pods[pod].socketUsers
    ensures var w := After(EMPTY, 0, run);
      ListsNow(StoreOf(Step(w, Disconnects(pod, id, true), time)), u, s, time) <==>
        ListsNow(StoreOf(w), u, s, time) && !(u == w.pods[pod].socketUsers[id] && s == id)
  {
    hide After, IsRun, ListsNow;
    var w := After(EMPTY, 0, run);
    StoreAfter(w, Disconnects(pod, id, true), time);
    UnregisterTakesOff(StoreOf(w), w.pods[pod].socketUsers[id], id, time, u, s);
  }

  /** A run can always go on: a pod that is down starts, accepts a socket held for no other user, and that user
      is connected; the other pods keep running. */
  lemma NewPodServes(run: seq<Timed>, pod: PodId, id: string, user: string, session: string, time: int)
    requires IsRun(EMPTY, 0, run) && EndsBy(run, time)
    requires pod !in After(EMPTY, 0, run).pods && HeldFor(After(EMPTY, 0, run), id, user)
    ensures var w := After(EMPTY, 0, run);
      var more := [Timed(time, Starts(pod)), Timed(time, Connects(pod, id, user, session, true))];
      && IsRun(w, time, more) && After(w, time, more).pods.Keys == w.pods.Keys + {pod}
      && Presence.Connected(StoreOf(After(w, time, more)), user, time)
  {
    var w := After(EMPTY, 0, run);
    var e := Connects(pod, id, user, session, true);
    var started := Step(w, Starts(pod), time);
    var more := [Timed(time, Starts(pod)), Timed(time, e)];
    assert started.actions == w.actions;
    assert more[1..] == [Timed(time, e)] && more[1..][1..] == [];
    ConnectCovers(started, pod, id, user, session, time);
    assert IsRun(started, time, more[1..]);
    assert After(started, time, more[1..]) == Step(started, e, time);
  }
}
