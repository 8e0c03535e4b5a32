/** The stale sweep of src/notifications/redis-presence.service.ts taken apart: it reads a user's hash, awaits
    the answer, and deletes the hash if it was empty. Anything may happen in between. */
module PresenceSweep {
  import opened Presence

  /** A call that reaches the store: an action of a gateway, the read of a sweep, or its deletion. */
  datatype Call =
    | Acts(time: int, action: Action)
    | Reads(time: int, u: UserId)
    | Deletes(time: int, u: UserId)

  predicate InOrder(calls: seq<Call>) {
    forall i, j | 0 <= i <= j < |calls| :: calls[i].time <= calls[j].time
  }

  /** The store after the first `n` calls. */
  function StoreAfter(calls: seq<Call>, n: nat): Store
    requires n <= |calls|
  {
    if n == 0 then Store(map[], map[])
    else
      var st := StoreAfter(calls, n - 1);
      match calls[n - 1]
      case Acts(time, action) => Apply(st, Event(time, action))
      case Reads(_, _) => st
      case Deletes(_, u) => LateDelete(st, u)
  }

  /** The store after the same calls without the deletions. */
  function Unswept(calls: seq<Call>, n: nat): Store
    requires n <= |calls|
  {
    if n == 0 then Store(map[], map[])
    else
      var st := Unswept(calls, n - 1);
      if calls[n - 1].Acts? then Apply(st, Event(calls[n - 1].time, calls[n - 1].action)) else st
  }

  predicate By(calls: seq<Call>, n: nat, now: int)
    requires n <= |calls|
  {
    n > 0 ==> calls[n - 1].time <= now
  }

  /** At no time does a deletion make a difference to who is connected. */
  ghost predicate Unnoticed(calls: seq<Call>) {
    forall n, now, v | 0 <= n <= |calls| && By(calls, n, now) ::
      Connected(StoreAfter(calls, n), v, now) == Connected(Unswept(calls, n), v, now)
  }

  /** The deletion finds a hash that still looks stale. */
  predicate FindsStale(calls: seq<Call>, n: nat)
    requires n < |calls|
  {
    calls[n].Deletes? ==> LooksStale(StoreAfter(calls, n), calls[n].u, calls[n].time)
  }

  // --- stores that look the same ---------------------------------------------------------------

  predicate SameUser(a: Store, b: Store, u: UserId, now: int) {
    UserLive(a, u, now) == UserLive(b, u, now) && (UserLive(a, u, now) ==> a.users[u] == b.users[u])
  }

  /** The two stores have the same live hashes and reverse keys. */
  ghost predicate SameLive(a: Store, b: Store, now: int) {
    a.sockets == b.sockets && forall u :: SameUser(a, b, u, now)
  }

  lemma ApplyKeepsTidy(st: Store, e: Event)
    requires Tidy(st, e.time)
    ensures Tidy(Apply(st, e), e.time)
  {
    if e.action.Register? { assert e.action.s in Apply(st, e).users[e.action.u].sockets; }
  }

  lemma ApplyKeepsSameUser(a: Store, b: Store, e: Event, u: UserId)
    requires SameUser(a, b, u, e.time) && (!e.action.Sweep? ==> SameUser(a, b, e.action.u, e.time))
    ensures SameUser(Apply(a, e), Apply(b, e), u, e.time)
  {
  }

  lemma ApplyKeepsSameLive(a: Store, b: Store, e: Event)
    requires SameLive(a, b, e.time)
    ensures SameLive(Apply(a, e), Apply(b, e), e.time)
  {
    forall u ensures SameUser(Apply(a, e), Apply(b, e), u, e.time) { ApplyKeepsSameUser(a, b, e, u); }
    hide SameUser;
  }

  lemma LaterSameLive(a: Store, b: Store, t: int, now: int)
    requires SameLive(a, b, t) && Tidy(a, t) && t <= now
    ensures SameLive(a, b, now) && Tidy(a, now)
  {
    forall u ensures SameUser(a, b, u, now) { assert SameUser(a, b, u, t); }
  }

  lemma DeleteKeepsSameLive(a: Store, b: Store, u: UserId, now: int)
    requires SameLive(a, b, now) && Tidy(a, now) && LooksStale(a, u, now)
    ensures SameLive(LateDelete(a, u), b, now) && Tidy(LateDelete(a, u), now)
  {
    forall v ensures SameUser(LateDelete(a, u), b, v, now) { assert SameUser(a, b, v, now); }
  }

  lemma {:induction false} StaleDeletesKeepSameLive(calls: seq<Call>, n: nat, now: int)
    requires InOrder(calls) && n <= |calls| && By(calls, n, now)
    requires forall k | 0 <= k < n :: FindsStale(calls, k)
    ensures SameLive(StoreAfter(calls, n), Unswept(calls, n), now) && Tidy(StoreAfter(calls, n), now)
  {
    if n > 0 {
      var call := calls[n - 1];
      StaleDeletesKeepSameLive(calls, n - 1, call.time);
      var a, b := StoreAfter(calls, n - 1), Unswept(calls, n - 1);
      assert FindsStale(calls, n - 1);
      hide Apply, LateDelete, LooksStale, SameLive, Tidy;
      match call {
        case Acts(time, action) =>
          ApplyKeepsTidy(a, Event(time, action));
          ApplyKeepsSameLive(a, b, Event(time, action));
        case Reads(_, _) =>
        case Deletes(time, u) => DeleteKeepsSameLive(a, b, u, time);
      }
      LaterSameLive(StoreAfter(calls, n), Unswept(calls, n), call.time, now);
    }
  }

  /** Whatever happens between the calls of the sweeps, and however many run, no deletion is ever noticed if
      and only if each finds a hash that looks stale. */
  lemma SweepsUnnoticed(calls: seq<Call>)
    requires InOrder(calls)
    ensures Unnoticed(calls) <==> forall n | 0 <= n < |calls| :: FindsStale(calls, n)
  {
    if forall n | 0 <= n < |calls| :: FindsStale(calls, n) {
      forall n, now, v | 0 <= n <= |calls| && By(calls, n, now)
        ensures Connected(StoreAfter(calls, n), v, now) == Connected(Unswept(calls, n), v, now)
      {
        StaleDeletesKeepSameLive(calls, n, now);
        assert SameUser(StoreAfter(calls, n), Unswept(calls, n), v, now);
      }
    }
    if n :| 0 <= n < |calls| && !FindsStale(calls, n) {
      var u, now := calls[n].u, calls[n].time;
      assert By(calls, n, now) && By(calls, n + 1, now);
      assert |StoreAfter(calls, n).users[u].sockets| > 0;
      assert Connected(StoreAfter(calls, n), u, now) && !Connected(StoreAfter(calls, n + 1), u, now);
      assert Unswept(calls, n + 1) == Unswept(calls, n);
    }
  }

  predicate Registers(call: Call, u: UserId) { call.Acts? && call.action.Register? && call.action.u == u }

  lemma StaysStale(calls: seq<Call>, n: nat, u: UserId, later: int)
    requires n < |calls| && LooksStale(StoreAfter(calls, n), u, calls[n].time) && !Registers(calls[n], u)
    requires calls[n].time <= later
    ensures LooksStale(StoreAfter(calls, n + 1), u, later)
  {
  }

  /** A hash that looked stale when a sweep read it, and no longer does at the deletion, was registered anew in
      between: only a user who comes back during the sweep can be wiped. */
  lemma {:induction false} OnlyWhoComesBack(calls: seq<Call>, m: nat, n: nat, u: UserId)
    requires InOrder(calls) && m < n < |calls|
    requires LooksStale(StoreAfter(calls, m), u, calls[m].time)
    requires !LooksStale(StoreAfter(calls, n), u, calls[n].time)
    ensures exists k | m <= k < n :: Registers(calls[k], u)
    decreases n - m
  {
    hide StoreAfter, LooksStale;
    if !Registers(calls[m], u) {
      StaysStale(calls, m, u, calls[m + 1].time);
      if m + 1 < n { OnlyWhoComesBack(calls, m + 1, n, u); }
    }
  }

  /** The deletion follows a read by a sweep that found the hash stale, and the user has not registered since. */
  ghost predicate Undisturbed(calls: seq<Call>, n: nat)
    requires n < |calls|
  {
    calls[n].Deletes? ==>
      exists m | 0 <= m < n ::
        && calls[m] == Reads(calls[m].time, calls[n].u)
        && LooksStale(StoreAfter(calls, m), calls[n].u, calls[m].time)
        && forall k | m <= k < n :: !Registers(calls[k], calls[n].u)
  }

  /** Sweeps during which nobody comes back whose hash they delete are never noticed. */
  lemma UndisturbedSweeps(calls: seq<Call>)
    requires InOrder(calls) && forall n | 0 <= n < |calls| :: Undisturbed(calls, n)
    ensures Unnoticed(calls)
  {
    hide StoreAfter, LooksStale;
    forall n | 0 <= n < |calls| ensures FindsStale(calls, n) {
      assert Undisturbed(calls, n);
      if calls[n].Deletes? && !LooksStale(StoreAfter(calls, n), calls[n].u, calls[n].time) {
        var u := calls[n].u;
        var m :| 0 <= m < n && LooksStale(StoreAfter(calls, m), u, calls[m].time)
          && forall k | m <= k < n :: !Registers(calls[k], u);
        OnlyWhoComesBack(calls, m, n, u);
      }
    }
    SweepsUnnoticed(calls);
  }
}
