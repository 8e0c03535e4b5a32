/** Account lockout: src/auth/login-rate-limit.service.ts, and the login gating of
    src/auth/auth.service.ts that consults it. Times are in milliseconds, emails are lower-cased, and a
    row's `attemptTime` is the time of the call that creates it. */
module Lockout {
  import opened TimeWindows
  import opened Wrappers

  datatype Row = Row(email: string, attemptTime: int, success: bool, lockedOut: bool, unlockAt: Option<int>)

  /** `maxAttempts` and the lockout duration, which configuration keeps positive, and the number of failures
      from which on a CAPTCHA is asked for; `None` if it is not a number. */
  datatype Config = Config(maxAttempts: nat, duration: int, captchaThreshold: Option<int>) {
    predicate Valid() { maxAttempts > 0 && duration > 0 }
  }

  type Table = seq<Row>

  predicate LocksAt(r: Row, email: string, now: int) {
    r.email == email && r.lockedOut && r.unlockAt.Some? && r.unlockAt.value > now
  }

  predicate Locked(rows: Table, email: string, now: int) {
    exists i | 0 <= i < |rows| :: LocksAt(rows[i], email, now)
  }

  predicate FailedSince(r: Row, email: string, from: int) {
    r.email == email && !r.success && r.attemptTime >= from
  }

  /** The failed attempts of the email from a time on. */
  function FailuresSince(rows: Table, email: string, from: int): nat {
    if rows == [] then 0
    else FailuresSince(rows[..|rows| - 1], email, from) + if FailedSince(rows[|rows| - 1], email, from) then 1 else 0
  }

  function ShouldLock(rows: Table, c: Config, email: string, now: int): bool {
    FailuresSince(rows, email, now - c.duration) + 1 >= c.maxAttempts
  }

  function FailedRow(rows: Table, c: Config, email: string, now: int): Row {
    var lock := ShouldLock(rows, c, email, now);
    Row(email, now, false, lock, if lock then Some(now + c.duration) else None)
  }

  function UnlockRow(r: Row, email: string, now: int): Row {
    if LocksAt(r, email, now) then r.(lockedOut := false, unlockAt := None) else r
  }

  function Unlocked(rows: Table, email: string, now: int): (t: Table)
    ensures |t| == |rows|
  {
    seq(|rows|, i requires 0 <= i < |rows| => UnlockRow(rows[i], email, now))
  }

  /** What the credentials of a login amount to: its CAPTCHA token, if it has one, and whether the token is
      valid; the account, if there is one. */
  datatype Request = Request(captcha: Option<bool>, account: Option<Account>)

  datatype Account = Account(blocked: bool, deactivated: bool, verified: bool, passwordMatches: bool,
                             secondFactor: bool)

  /** The answers to a login. Those of the first line are recorded as nothing, those of the second as failures;
      a wrong password is told whether it has locked the account. */
  datatype Result =
    | AccountLocked | CaptchaMissing | Blocked | Deactivated | Unverified | SecondFactorMissing
    | WrongCaptcha | UnknownUser | WrongPassword(locks: bool)
    | Success

  predicate Fails(r: Result) { r.WrongCaptcha? || r.UnknownUser? || r.WrongPassword? }

  predicate AsksCaptcha(rows: Table, c: Config, email: string, now: int) {
    c.captchaThreshold.Some? && FailuresSince(rows, email, now - c.duration) >= c.captchaThreshold.value
  }

  /** The checks in their order: lockout, CAPTCHA, account, password, second factor. */
  function Outcome(rows: Table, c: Config, email: string, q: Request, now: int): Result {
    if Locked(rows, email, now) then AccountLocked
    else if AsksCaptcha(rows, c, email, now) && q.captcha.None? then CaptchaMissing
    else if AsksCaptcha(rows, c, email, now) && !q.captcha.value then WrongCaptcha
    else if q.account.None? then UnknownUser
    else
      var a := q.account.value;
      if a.blocked then Blocked
      else if a.deactivated then Deactivated
      else if !a.verified then Unverified
      else if !a.passwordMatches then WrongPassword(ShouldLock(rows, c, email, now))
      else if !a.secondFactor then SecondFactorMissing
      else Success
  }

  /** `login`: what it records. */
  function Login(rows: Table, c: Config, email: string, q: Request, now: int): Table {
    var result := Outcome(rows, c, email, q, now);
    if Fails(result) then rows + [FailedRow(rows, c, email, now)]
    else if result.Success? then rows + [Row(email, now, true, false, None)]
    else rows
  }

  // --- the service -----------------------------------------------------------------------------

  class LoginRateLimitService {
    const config: Config
    var attempts: Table

    constructor (config: Config)
      ensures this.config == config && attempts == []
    {
      this.config, attempts := config, [];
    }

    /** `findFirst` over the attempts. */
    method IsAccountLocked(email: string, now: int) returns (locked: bool)
      ensures locked == Locked(attempts, email, now)
    {
      locked := exists i | 0 <= i < |attempts| :: LocksAt(attempts[i], email, now);
    }

    method GetFailedAttemptsCount(email: string, now: int) returns (count: nat)
      ensures count == FailuresSince(attempts, email, now - config.duration)
    {
      count := 0;
      for i := 0 to |attempts|
        invariant count == FailuresSince(attempts[..i], email, now - config.duration)
      {
        assert attempts[..i + 1][..i] == attempts[..i];
        if FailedSince(attempts[i], email, now - config.duration) { count := count + 1; }
      }
      assert attempts[..|attempts|] == attempts;
    }

    method RecordFailedAttempt(email: string, now: int) returns (shouldLock: bool)
      modifies this
      ensures shouldLock == ShouldLock(old(attempts), config, email, now)
      ensures attempts == old(attempts) + [FailedRow(old(attempts), config, email, now)]
    {
      var recent := GetFailedAttemptsCount(email, now);
      shouldLock := recent + 1 >= config.maxAttempts;
      var unlockAt := if shouldLock then Some(now + config.duration) else None;
      attempts := attempts + [Row(email, now, false, shouldLock, unlockAt)];
    }

    method RecordSuccessfulAttempt(email: string, now: int)
      modifies this
      ensures attempts == old(attempts) + [Row(email, now, true, false, None)]
    {
      attempts := attempts + [Row(email, now, true, false, None)];
    }

    method UnlockAccount(email: string, now: int)
      modifies this
      ensures attempts == Unlocked(old(attempts), email, now)
    {
      ghost var before := attempts;
      for i := 0 to |attempts|
        invariant |attempts| == |before|
        invariant forall k | 0 <= k < |before| ::
          attempts[k] == if k < i then UnlockRow(before[k], email, now) else before[k]
      {
        if LocksAt(attempts[i], email, now) {
          attempts := attempts[i := attempts[i].(lockedOut := false, unlockAt := None)];
        }
      }
      assert attempts == Unlocked(before, email, now);
    }

    method AttemptLogin(email: string, q: Request, now: int) returns (result: Result)
      modifies this
      ensures result == Outcome(old(attempts), config, email, q, now)
      ensures attempts == Login(old(attempts), config, email, q, now)
    {
      hide Locked, FailuresSince, FailedRow;
      var locked := IsAccountLocked(email, now);
      if locked { return AccountLocked; }
      var failedAttempts := GetFailedAttemptsCount(email, now);
      if config.captchaThreshold.Some? && failedAttempts >= config.captchaThreshold.value {
        if q.captcha.None? { return CaptchaMissing; }
        if !q.captcha.value {
          var _ := RecordFailedAttempt(email, now);
          return WrongCaptcha;
        }
      }
      if q.account.None? {
        var _ := RecordFailedAttempt(email, now);
        return UnknownUser;
      }
      var account := q.account.value;
      if account.blocked { return Blocked; }
      if account.deactivated { return Deactivated; }
      if !account.verified { return Unverified; }
      if !account.passwordMatches {
        var shouldLock := RecordFailedAttempt(email, now);
        return WrongPassword(shouldLock);
      }
      if !account.secondFactor { return SecondFactorMissing; }
      RecordSuccessfulAttempt(email, now);
      return Success;
    }
  }

  // --- the bound over every run ----------------------------------------------------------------

  /** The times of the failures of an email, in order. */
  function FailTimes(rows: Table, email: string): seq<int> {
    if rows == [] then []
    else
      var r := rows[|rows| - 1];
      FailTimes(rows[..|rows| - 1], email) + if r.email == email && !r.success then [r.attemptTime] else []
  }

  /** Some row of the email locks it until the given time. */
  predicate Armed(rows: Table, email: string, until: int) {
    exists i | 0 <= i < |rows| :: LocksUntil(rows[i], email, until)
  }

  predicate LocksUntil(r: Row, email: string, until: int) {
    r.email == email && r.lockedOut && r.unlockAt == Some(until)
  }

  /** If the last `maxAttempts` failures lie within the duration, the last one locked the account. */
  predicate LastLocked(rows: Table, f: seq<int>, c: Config, email: string) {
    |f| >= c.maxAttempts > 0 && f[|f| - 1] - f[|f| - c.maxAttempts] <= c.duration ==>
      Armed(rows, email, f[|f| - 1] + c.duration)
  }

  predicate Inv(rows: Table, c: Config, email: string, now: int) {
    var f := FailTimes(rows, email);
    Ordered(f, now) && Spaced(f, c.maxAttempts, c.duration) && LastLocked(rows, f, c, email)
  }

  lemma {:induction false} CountedFromEnd(rows: Table, email: string, from: int, now: int, k: nat)
    requires Ordered(FailTimes(rows, email), now)
    requires k <= |FailTimes(rows, email)|
    requires k > 0 ==> FailTimes(rows, email)[|FailTimes(rows, email)| - k] >= from
    ensures FailuresSince(rows, email, from) >= k
  {
    if k > 0 {
      var f, rest := FailTimes(rows, email), rows[..|rows| - 1];
      var g, r := FailTimes(rest, email), rows[|rows| - 1];
      assert forall i | 0 <= i < |g| :: g[i] == f[i];
      if r.email == email && !r.success {
        assert f[|f| - 1] == r.attemptTime >= from;
        CountedFromEnd(rest, email, from, now, k - 1);
      } else {
        CountedFromEnd(rest, email, from, now, k);
      }
    }
  }

  lemma AppendedRow(rows: Table, email: string, r: Row)
    ensures FailTimes(rows + [r], email) ==
      FailTimes(rows, email) + if r.email == email && !r.success then [r.attemptTime] else []
  {
    assert (rows + [r])[..|rows|] == rows;
  }

  lemma ArmedGrows(rows: Table, email: string, until: int, r: Row)
    requires Armed(rows, email, until)
    ensures Armed(rows + [r], email, until)
  {
    var i :| 0 <= i < |rows| && LocksUntil(rows[i], email, until);
    assert LocksUntil((rows + [r])[i], email, until);
  }

  /** A row for another email, or a success, changes nothing for this one. */
  lemma UnrelatedRow(rows: Table, c: Config, email: string, now: int, r: Row)
    requires Inv(rows, c, email, now) && (r.email != email || r.success)
    ensures Inv(rows + [r], c, email, now)
  {
    hide FailTimes, Armed;
    AppendedRow(rows, email, r);
    var f := FailTimes(rows, email);
    assert FailTimes(rows + [r], email) == f;
    if |f| >= c.maxAttempts > 0 && f[|f| - 1] - f[|f| - c.maxAttempts] <= c.duration {
      ArmedGrows(rows, email, f[|f| - 1] + c.duration, r);
    }
  }

  /** An account that is not locked failed `maxAttempts` ago at least the duration ago. */
  lemma UnlockedIsPaced(rows: Table, f: seq<int>, c: Config, email: string, now: int)
    requires c.Valid() && Ordered(f, now) && LastLocked(rows, f, c, email) && !Locked(rows, email, now)
    requires |f| >= c.maxAttempts
    ensures f[|f| - c.maxAttempts] + c.duration <= now
  {
    var last := f[|f| - 1];
    if last - f[|f| - c.maxAttempts] <= c.duration {
      var i :| 0 <= i < |rows| && LocksUntil(rows[i], email, last + c.duration);
      assert !LocksAt(rows[i], email, now);
    }
  }

  /** The failure that completes `maxAttempts` of them within the duration locks the account. */
  lemma FailureLocks(rows: Table, c: Config, email: string, now: int)
    requires c.Valid() && Ordered(FailTimes(rows, email), now)
    ensures LastLocked(rows + [FailedRow(rows, c, email, now)], FailTimes(rows, email) + [now], c, email)
  {
    hide FailTimes, FailuresSince;
    var f, r := FailTimes(rows, email), FailedRow(rows, c, email, now);
    var g := f + [now];
    if |g| >= c.maxAttempts && now - g[|g| - c.maxAttempts] <= c.duration {
      CountedFromEnd(rows, email, now - c.duration, now, c.maxAttempts - 1);
      assert LocksUntil((rows + [r])[|rows|], email, now + c.duration);
    }
  }

  lemma FailureKeepsInv(rows: Table, c: Config, email: string, now: int)
    requires c.Valid() && Inv(rows, c, email, now) && !Locked(rows, email, now)
    ensures Inv(rows + [FailedRow(rows, c, email, now)], c, email, now)
  {
    hide FailTimes, Locked, LastLocked, Ordered, Spaced, ShouldLock;
    var r, f := FailedRow(rows, c, email, now), FailTimes(rows, email);
    AppendedRow(rows, email, r);
    if |f| >= c.maxAttempts { UnlockedIsPaced(rows, f, c, email, now); }
    PacedEvent(f, c.maxAttempts, c.duration, now);
    FailureLocks(rows, c, email, now);
  }

  lemma InvLater(rows: Table, c: Config, email: string, now: int, later: int)
    requires Inv(rows, c, email, now) && now <= later
    ensures Inv(rows, c, email, later)
  {
  }

  datatype Event =
    | Attempts(email: string, q: Request, time: int)
    | Unlocks(account: string, time: int)

  function Apply(rows: Table, c: Config, e: Event): Table {
    match e
    case Attempts(email, q, time) => Login(rows, c, email, q, time)
    case Unlocks(account, time) => Unlocked(rows, account, time)
  }

  predicate InOrder(events: seq<Event>) {
    forall i, j | 0 <= i <= j < |events| :: events[i].time <= events[j].time
  }

  function After(c: Config, events: seq<Event>): Table {
    if events == [] then [] else Apply(After(c, events[..|events| - 1]), c, events[|events| - 1])
  }

  lemma {:induction false} RunKeepsInv(c: Config, events: seq<Event>, email: string, now: int)
    requires c.Valid() && InOrder(events) && (events != [] ==> events[|events| - 1].time <= now)
    requires forall e | e in events :: !(e.Unlocks? && e.account == email)
    ensures Inv(After(c, events), c, email, now)
  {
    if events != [] {
      var e, rest := events[|events| - 1], events[..|events| - 1];
      RunKeepsInv(c, rest, email, e.time);
      EventKeepsInv(After(c, rest), c, e, email);
      InvLater(After(c, events), c, email, e.time, now);
    }
  }

  lemma EventKeepsInv(rows: Table, c: Config, e: Event, email: string)
    requires c.Valid() && Inv(rows, c, email, e.time) && !(e.Unlocks? && e.account == email)
    ensures Inv(Apply(rows, c, e), c, email, e.time)
  {
    hide Inv, Locked, AsksCaptcha, FailedRow, Unlocked;
    match e
    case Attempts(account, q, now) =>
      var result := Outcome(rows, c, account, q, now);
      if Fails(result) {
        FailedRowShape(rows, c, account, now);
        if account == email { FailureKeepsInv(rows, c, email, now); }
        else { UnrelatedRow(rows, c, email, now, FailedRow(rows, c, account, now)); }
      } else if result.Success? {
        UnrelatedRow(rows, c, email, now, Row(account, now, true, false, None));
      }
    case Unlocks(account, now) => OtherUnlock(rows, c, email, now, account);
  }

  /** Unlocking changes no failure time of any email, and no lock of another one. */
  lemma OtherUnlock(rows: Table, c: Config, email: string, now: int, account: string)
    requires Inv(rows, c, email, now) && account != email
    ensures Inv(Unlocked(rows, account, now), c, email, now)
  {
    var t := Unlocked(rows, account, now);
    UnlockKeepsFailures(rows, account, now, email, 0);
    var f := FailTimes(rows, email);
    if |f| >= c.maxAttempts > 0 && f[|f| - 1] - f[|f| - c.maxAttempts] <= c.duration {
      var until := f[|f| - 1] + c.duration;
      var i :| 0 <= i < |rows| && LocksUntil(rows[i], email, until);
      assert LocksUntil(t[i], email, until);
    }
  }

  lemma {:induction false} UnlockKeepsFailures(rows: Table, account: string, now: int, email: string, from: int)
    ensures FailTimes(Unlocked(rows, account, now), email) == FailTimes(rows, email)
    ensures FailuresSince(Unlocked(rows, account, now), email, from) == FailuresSince(rows, email, from)
  {
    if rows != [] {
      var t, rest := Unlocked(rows, account, now), rows[..|rows| - 1];
      assert t[..|t| - 1] == Unlocked(rest, account, now);
      UnlockKeepsFailures(rest, account, now, email, from);
    }
  }

  /** In any run of gated logins in which the account is not unlocked by hand, every half-open interval
      of the lockout duration holds at most `maxAttempts` failed attempts of the account. */
  lemma AtMostMaxFailures(c: Config, events: seq<Event>, email: string, a: int)
    requires c.Valid() && InOrder(events)
    requires forall e | e in events :: !(e.Unlocks? && e.account == email)
    ensures CountIn(FailTimes(After(c, events), email), a, a + c.duration) <= c.maxAttempts
  {
    hide FailTimes, After, CountIn, LastLocked, Ordered, Spaced;
    var now := if events == [] then 0 else events[|events| - 1].time;
    RunKeepsInv(c, events, email, now);
    SpacedBoundsWindow(FailTimes(After(c, events), email), c.maxAttempts, c.duration, a, now);
  }

  // --- no lock without cause -------------------------------------------------------------------

  /** Counting rows and counting failure times is the same, for times up to now. */
  lemma {:induction false} CountedTimes(rows: Table, email: string, from: int, now: int)
    requires Ordered(FailTimes(rows, email), now)
    ensures FailuresSince(rows, email, from) == CountIn(FailTimes(rows, email), from, now + 1)
  {
    if rows != [] {
      var r, rest := rows[|rows| - 1], rows[..|rows| - 1];
      var g, f := FailTimes(rest, email), FailTimes(rows, email);
      if r.email == email && !r.success {
        assert f == g + [r.attemptTime] && f[..|f| - 1] == g;
        assert Ordered(g, now);
      } else {
        assert f == g;
      }
      CountedTimes(rest, email, from, now);
    }
  }

  /** A lock lasts the duration from its own failure, and was the last of `maxAttempts` failures within
      the duration before it. */
  predicate Caused(r: Row, f: seq<int>, c: Config) {
    r.lockedOut ==> r.unlockAt == Some(r.attemptTime + c.duration) && FullWindow(f, c, r.attemptTime)
  }

  /** At least `maxAttempts` failures lie within the duration up to the time. */
  predicate FullWindow(f: seq<int>, c: Config, t: int) {
    CountIn(f, t - c.duration, t + 1) >= c.maxAttempts
  }

  predicate AllCaused(rows: Table, c: Config, email: string) {
    forall i | 0 <= i < |rows| && rows[i].email == email :: Caused(rows[i], FailTimes(rows, email), c)
  }

  lemma AppendKeepsCaused(rows: Table, c: Config, email: string, r: Row)
    requires AllCaused(rows, c, email)
    requires r.email == email ==> Caused(r, FailTimes(rows + [r], email), c)
    ensures AllCaused(rows + [r], c, email)
  {
    hide FailTimes, CountIn;
    var f, t := FailTimes(rows, email), rows + [r];
    AppendedRow(rows, email, r);
    forall i | 0 <= i < |t| && t[i].email == email ensures Caused(t[i], FailTimes(t, email), c) {
      if i < |rows| {
        assert Caused(rows[i], f, c) && t[i] == rows[i] && f + [] == f;
        CountMore(f, r.attemptTime, t[i].attemptTime - c.duration, t[i].attemptTime + 1);
      }
    }
  }

  lemma FailureIsCaused(rows: Table, c: Config, email: string, now: int)
    requires c.Valid() && Ordered(FailTimes(rows, email), now)
    ensures var r := FailedRow(rows, c, email, now); Caused(r, FailTimes(rows + [r], email), c)
  {
    hide FailTimes, CountIn, FailuresSince;
    var r, f := FailedRow(rows, c, email, now), FailTimes(rows, email);
    AppendedRow(rows, email, r);
    CountedTimes(rows, email, now - c.duration, now);
    CountMore(f, now, now - c.duration, now + 1);
  }

  lemma UnlockKeepsCaused(rows: Table, c: Config, account: string, now: int, email: string)
    requires AllCaused(rows, c, email)
    ensures AllCaused(Unlocked(rows, account, now), c, email)
  {
    hide FailTimes, CountIn;
    var t := Unlocked(rows, account, now);
    UnlockKeepsFailures(rows, account, now, email, 0);
    forall i | 0 <= i < |t| && t[i].email == email ensures Caused(t[i], FailTimes(t, email), c) {
      assert Caused(rows[i], FailTimes(rows, email), c);
    }
  }

  lemma {:induction false} RunKeepsCaused(c: Config, events: seq<Event>, email: string, now: int)
    requires c.Valid() && InOrder(events) && (events != [] ==> events[|events| - 1].time <= now)
    ensures AllCaused(After(c, events), c, email) && Ordered(FailTimes(After(c, events), email), now)
  {
    if events != [] {
      hide FailTimes, FailuresSince, CountIn, AllCaused, Locked;
      var e, rest := events[|events| - 1], events[..|events| - 1];
      RunKeepsCaused(c, rest, email, e.time);
      EventKeepsCaused(After(c, rest), c, e, email);
    }
  }

  lemma EventKeepsCaused(rows: Table, c: Config, e: Event, email: string)
    requires c.Valid() && AllCaused(rows, c, email) && Ordered(FailTimes(rows, email), e.time)
    ensures AllCaused(Apply(rows, c, e), c, email) && Ordered(FailTimes(Apply(rows, c, e), email), e.time)
  {
    hide FailTimes, FailuresSince, CountIn, AllCaused, Locked, Caused, Unlocked, FailedRow, Outcome;
    match e
    case Attempts(account, q, now) =>
      var failed, passed := FailedRow(rows, c, account, now), Row(account, now, true, false, None);
      FailedRowShape(rows, c, account, now);
      AppendedRow(rows, email, failed);
      AppendedRow(rows, email, passed);
      assert FailTimes(rows, email) + [] == FailTimes(rows, email);
      if account == email { FailureIsCaused(rows, c, email, now); }
      AppendKeepsCaused(rows, c, email, failed);
      PassIsCaused(rows, c, email, passed);
      AppendKeepsCaused(rows, c, email, passed);
    case Unlocks(account, now) =>
      UnlockKeepsCaused(rows, c, account, now, email);
      UnlockKeepsFailures(rows, account, now, email, 0);
  }

  lemma FailedRowShape(rows: Table, c: Config, email: string, now: int)
    ensures var r := FailedRow(rows, c, email, now); r.email == email && r.attemptTime == now && !r.success
  {
  }

  lemma PassIsCaused(rows: Table, c: Config, email: string, r: Row)
    requires !r.lockedOut
    ensures Caused(r, FailTimes(rows + [r], email), c)
  {
  }

  /** In any run, manual unlocks included, an account is locked only less than the duration after a time
      up to which at least `maxAttempts` failures lay within the duration. */
  lemma LockHasCause(c: Config, events: seq<Event>, email: string, now: int)
    requires c.Valid() && InOrder(events) && (events != [] ==> events[|events| - 1].time <= now)
    requires Locked(After(c, events), email, now)
    ensures exists t :: now - c.duration < t && FullWindow(FailTimes(After(c, events), email), c, t)
  {
    hide FailTimes, CountIn, After, Ordered;
    var rows := After(c, events);
    RunKeepsCaused(c, events, email, now);
    var i :| 0 <= i < |rows| && LocksAt(rows[i], email, now);
    assert Caused(rows[i], FailTimes(rows, email), c);
  }

  // --- a lock is its history -------------------------------------------------------------------

  /** The event is a failed attempt of the account that, with those of the duration before it, makes
      `maxAttempts`. */
  predicate Locks(rows: Table, c: Config, e: Event, email: string) {
    && e.Attempts? && e.email == email && Fails(Outcome(rows, c, email, e.q, e.time))
    && FailuresSince(rows, email, e.time - c.duration) >= c.maxAttempts - 1
  }

  /** Such a failure happened less than the duration ago, and the account has not been unlocked since. */
  predicate LockedAlong(c: Config, events: seq<Event>, email: string, now: int) {
    events != []
    && var e, rest := events[|events| - 1], events[..|events| - 1];
       && !(e.Unlocks? && e.account == email)
       && ((Locks(After(c, rest), c, e, email) && now < e.time + c.duration) || LockedAlong(c, rest, email, now))
  }

  lemma AppendedLock(rows: Table, r: Row, email: string, now: int)
    ensures Locked(rows + [r], email, now) <==> Locked(rows, email, now) || LocksAt(r, email, now)
  {
    var t := rows + [r];
    assert t[|rows|] == r && forall i | 0 <= i < |rows| :: t[i] == rows[i];
    if i :| 0 <= i < |rows| && LocksAt(rows[i], email, now) { assert LocksAt(t[i], email, now); }
    if LocksAt(r, email, now) { assert LocksAt(t[|rows|], email, now); }
    if i :| 0 <= i < |t| && LocksAt(t[i], email, now) { assert i < |rows| ==> LocksAt(rows[i], email, now); }
  }

  lemma UnlockedLocks(rows: Table, account: string, time: int, email: string, now: int)
    requires time <= now
    ensures Locked(Unlocked(rows, account, time), email, now) <==> account != email && Locked(rows, email, now)
  {
    var t := Unlocked(rows, account, time);
    forall i | 0 <= i < |rows|
      ensures LocksAt(t[i], email, now) <==> account != email && LocksAt(rows[i], email, now)
    {
      assert t[i] == UnlockRow(rows[i], account, time);
    }
    hide Unlocked, LocksAt;
    if i :| 0 <= i < |t| && LocksAt(t[i], email, now) { assert LocksAt(rows[i], email, now); }
    if i :| 0 <= i < |rows| && LocksAt(rows[i], email, now) { assert account != email ==> LocksAt(t[i], email, now); }
  }

  lemma FailureLocksUntil(rows: Table, c: Config, account: string, time: int, email: string, now: int)
    ensures LocksAt(FailedRow(rows, c, account, time), email, now) <==>
      account == email && FailuresSince(rows, email, time - c.duration) >= c.maxAttempts - 1 && now < time + c.duration
  {
  }

  lemma EventLocks(rows: Table, c: Config, e: Event, email: string, now: int)
    requires e.time <= now
    ensures Locked(Apply(rows, c, e), email, now) <==>
      !(e.Unlocks? && e.account == email)
      && ((Locks(rows, c, e, email) && now < e.time + c.duration) || Locked(rows, email, now))
  {
    hide Locked, LocksAt, FailedRow, Unlocked, AsksCaptcha, FailuresSince;
    match e
    case Attempts(account, q, time) =>
      FailureLocksUntil(rows, c, account, time, email, now);
      AppendedLock(rows, FailedRow(rows, c, account, time), email, now);
      AppendedLock(rows, Row(account, time, true, false, None), email, now);
      PassLocksNothing(account, time, email, now);
    case Unlocks(account, time) => UnlockedLocks(rows, account, time, email, now);
  }

  lemma PassLocksNothing(account: string, time: int, email: string, now: int)
    ensures !LocksAt(Row(account, time, true, false, None), email, now)
  {
  }

  /** In every run an account is locked exactly if such a failure happened less than the duration ago, and the
      account has not been unlocked since. */
  lemma {:induction false} LockIsHistory(c: Config, events: seq<Event>, email: string, now: int)
    requires InOrder(events) && (events != [] ==> events[|events| - 1].time <= now)
    ensures Locked(After(c, events), email, now) <==> LockedAlong(c, events, email, now)
  {
    if events != [] {
      hide Apply, Locked, Locks;
      var e, rest := events[|events| - 1], events[..|events| - 1];
      LockIsHistory(c, rest, email, now);
      EventLocks(After(c, rest), c, e, email, now);
    }
  }

  /** Unlocking clears exactly the locks of the account that still hold, and leaves every row otherwise as it
      was. */
  lemma UnlockClears(rows: Table, email: string, now: int, i: nat)
    requires i < |rows|
    ensures var r, t := rows[i], Unlocked(rows, email, now)[i];
      && t.email == r.email && t.attemptTime == r.attemptTime && t.success == r.success
      && (t.lockedOut <==> r.lockedOut && !LocksAt(r, email, now))
      && t.unlockAt == if LocksAt(r, email, now) then None else r.unlockAt
  {
  }

  // --- the answers to a login ------------------------------------------------------------------

  /** The account is not locked, and the CAPTCHA, if asked for, is right. */
  predicate PassesGate(rows: Table, c: Config, email: string, q: Request, now: int) {
    !Locked(rows, email, now) && (AsksCaptcha(rows, c, email, now) ==> q.captcha == Some(true))
  }

  predicate InGoodStanding(a: Account) { !a.blocked && !a.deactivated && a.verified }

  /** When each answer is given. A blocked account is told so before its password is looked at. */
  lemma LoginAnswers(rows: Table, c: Config, email: string, q: Request, now: int)
    ensures var a, locked := Outcome(rows, c, email, q, now), Locked(rows, email, now);
      var asked := AsksCaptcha(rows, c, email, now);
      && (a == AccountLocked <==> locked)
      && (a == CaptchaMissing <==> !locked && asked && q.captcha.None?)
      && (a == WrongCaptcha <==> !locked && asked && q.captcha == Some(false))
      && (a == UnknownUser <==> PassesGate(rows, c, email, q, now) && q.account.None?)
    ensures var a, known := Outcome(rows, c, email, q, now), PassesGate(rows, c, email, q, now) && q.account.Some?;
      && (a == Blocked <==> known && q.account.value.blocked)
      && (a == Deactivated <==> known && !q.account.value.blocked && q.account.value.deactivated)
      && (a == Unverified <==>
            known && !q.account.value.blocked && !q.account.value.deactivated && !q.account.value.verified)
      && (a.WrongPassword? <==> known && InGoodStanding(q.account.value) && !q.account.value.passwordMatches)
      && (a.WrongPassword? ==>
            (a.locks <==> FailuresSince(rows, email, now - c.duration) + 1 >= c.maxAttempts))
      && (a == SecondFactorMissing <==>
            && known && InGoodStanding(q.account.value)
            && q.account.value.passwordMatches && !q.account.value.secondFactor)
      && (a == Success <==>
            known && InGoodStanding(q.account.value) && q.account.value.passwordMatches && q.account.value.secondFactor)
  {
    hide Locked, FailuresSince;
  }

  /** What is recorded: a failure for a wrong CAPTCHA, an unknown account or a wrong password, a success for a
      success, and nothing otherwise. */
  lemma LoginRecords(rows: Table, c: Config, email: string, q: Request, now: int)
    ensures var a, t := Outcome(rows, c, email, q, now), Login(rows, c, email, q, now);
      && (a in {WrongCaptcha, UnknownUser, WrongPassword(true), WrongPassword(false)} ==>
            |t| == |rows| + 1 && t[..|rows|] == rows && t[|rows|].email == email
            && t[|rows|].attemptTime == now && !t[|rows|].success
            && t[|rows|].unlockAt == if t[|rows|].lockedOut then Some(now + c.duration) else None)
      && (a == Success ==> t == rows + [Row(email, now, true, false, None)])
      && (a in {AccountLocked, CaptchaMissing, Blocked, Deactivated, Unverified, SecondFactorMissing} ==> t == rows)
  {
    hide Outcome, FailuresSince;
  }

  // --- the CAPTCHA comes before the lock -------------------------------------------------------

  predicate NeverLocks(rows: Table, email: string) {
    forall r | r in rows && r.email == email :: !r.lockedOut
  }

  lemma TokenlessAttempt(rows: Table, c: Config, email: string, e: Event)
    requires NeverLocks(rows, email) && c.captchaThreshold.Some? && c.captchaThreshold.value < c.maxAttempts
    requires e.Attempts? && e.email == email ==> e.q.captcha.None?
    ensures NeverLocks(Apply(rows, c, e), email)
  {
    hide FailuresSince;
    match e
    case Attempts(account, q, now) =>
      if account == email && Fails(Outcome(rows, c, email, q, now)) {
        assert !AsksCaptcha(rows, c, email, now);
        assert !ShouldLock(rows, c, email, now);
      }
    case Unlocks(account, now) =>
      var t := Unlocked(rows, account, now);
      forall r | r in t && r.email == email ensures !r.lockedOut {
        var i :| 0 <= i < |t| && t[i] == r;
        assert rows[i] in rows;
      }
  }

  /** With a CAPTCHA asked for before the last allowed failure, attempts without a token never lock the
      account, however many there are. */
  lemma {:induction false} TokenlessNeverLocks(c: Config, events: seq<Event>, email: string, now: int)
    requires c.captchaThreshold.Some? && c.captchaThreshold.value < c.maxAttempts
    requires forall e | e in events && e.Attempts? && e.email == email :: e.q.captcha.None?
    ensures NeverLocks(After(c, events), email) && !Locked(After(c, events), email, now)
  {
    if events != [] {
      hide Apply, NeverLocks;
      var e, rest := events[|events| - 1], events[..|events| - 1];
      assert e in events && forall d | d in rest :: d in events;
      TokenlessNeverLocks(c, rest, email, now);
      TokenlessAttempt(After(c, rest), c, email, e);
    }
    NeverLockedNow(After(c, events), email, now);
  }

  lemma NeverLockedNow(rows: Table, email: string, now: int)
    requires NeverLocks(rows, email)
    ensures !Locked(rows, email, now)
  {
    forall i | 0 <= i < |rows| ensures !LocksAt(rows[i], email, now) { assert rows[i] in rows; }
  }

  /** Unlocking clears the lock and keeps the count, so the next failure locks the account again
      exactly when `maxAttempts - 1` failures are still in the window. */
  lemma UnlockKeepsCount(rows: Table, c: Config, email: string, now: int, later: int)
    requires c.Valid() && now <= later
    ensures !Locked(Unlocked(rows, email, now), email, now)
    ensures FailedRow(Unlocked(rows, email, now), c, email, later).lockedOut <==>
      FailuresSince(rows, email, later - c.duration) >= c.maxAttempts - 1
  {
    UnlockKeepsFailures(rows, email, now, email, later - c.duration);
  }
}
