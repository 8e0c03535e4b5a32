/** The pruned per-key logs of src/database/n1-detector.ts and of src/notifications/sms.service.ts,
    against the full history behind them. Times are in milliseconds. */
module SlidingLog {
  import opened TimeWindows
  import opened Wrappers

  type Logs = map<string, seq<int>>

  function LogOf(logs: Logs, key: string): seq<int> {
    if key in logs then logs[key] else []
  }

  /** The times still within the window, in order. */
  function Recent(log: seq<int>, now: int, window: int): seq<int> {
    if log == [] then []
    else
      var last := log[|log| - 1];
      Recent(log[..|log| - 1], now, window) + if now - last < window then [last] else []
  }

  predicate Stale(log: seq<int>, now: int, window: int) {
    forall t | t in log :: now - t >= window
  }

  /** `sweep`: the keys whose every time has left the window are dropped. */
  function Swept(logs: Logs, now: int, window: int): Logs {
    map k | k in logs && !Stale(logs[k], now, window) :: logs[k]
  }

  /** One record of a key: prune, append, and sweep if too many keys are tracked. */
  function Recorded(logs: Logs, key: string, now: int, window: int, maxKeys: nat): Logs {
    var more := logs[key := Recent(LogOf(logs, key), now, window) + [now]];
    if |more| > maxKeys then Swept(more, now, window) else more
  }

  // --- the detector ----------------------------------------------------------------------------

  class N1Detector {
    const windowMs: int
    const threshold: int
    const maxKeys: nat
    var window: Logs

    constructor (windowMs: int, threshold: int, maxKeys: nat)
      ensures this.windowMs == windowMs && this.threshold == threshold && this.maxKeys == maxKeys
      ensures window == map[]
    {
      this.windowMs, this.threshold, this.maxKeys, window := windowMs, threshold, maxKeys, map[];
    }

    /** The key is the table and the shape of the query, `None` when no table is recognised. */
    method Record(key: Option<string>, now: int) returns (detection: Option<nat>)
      modifies this
      ensures key.None? ==> detection.None? && window == old(window)
      ensures key.Some? ==>
        && window == Recorded(old(window), key.value, now, windowMs, maxKeys)
        && var count := |Recent(LogOf(old(window), key.value), now, windowMs)| + 1;
           detection == if count == threshold then Some(count) else None
    {
      if key.None? { return None; }
      var timestamps := Recent(LogOf(window, key.value), now, windowMs);
      timestamps := timestamps + [now];
      window := window[key.value := timestamps];
      if |window| > maxKeys { Sweep(now); }
      return if |timestamps| == threshold then Some(|timestamps|) else None;
    }

    method Sweep(now: int)
      modifies this
      ensures window == Swept(old(window), now, windowMs)
    {
      var keys := window.Keys;
      ghost var before := window;
      while keys != {}
        invariant keys <= before.Keys
        invariant window == map k | k in before && (k in keys || !Stale(before[k], now, windowMs)) :: before[k]
        decreases |keys|
      {
        var key :| key in keys;
        keys := keys - {key};
        if Stale(window[key], now, windowMs) { window := window - {key}; }
      }
    }
  }

  // --- the full history ------------------------------------------------------------------------

  datatype Entry = Entry(key: string, time: int)

  predicate InOrder(history: seq<Entry>) {
    forall i, j | 0 <= i <= j < |history| :: history[i].time <= history[j].time
  }

  /** Every time a key was recorded, nothing pruned. */
  function TimesOf(history: seq<Entry>, key: string): seq<int> {
    if history == [] then []
    else
      var e := history[|history| - 1];
      TimesOf(history[..|history| - 1], key) + if e.key == key then [e.time] else []
  }

  function LogsAfter(history: seq<Entry>, window: int, maxKeys: nat): Logs {
    if history == [] then map[]
    else
      var e := history[|history| - 1];
      Recorded(LogsAfter(history[..|history| - 1], window, maxKeys), e.key, e.time, window, maxKeys)
  }

  lemma RecentMore(log: seq<int>, t: int, now: int, window: int)
    ensures Recent(log + [t], now, window) == Recent(log, now, window) + if now - t < window then [t] else []
  {
    assert (log + [t])[..|log|] == log;
  }

  /** Pruning early loses nothing that is still recent later. */
  lemma {:induction false} RecentTwice(log: seq<int>, now: int, later: int, window: int)
    requires now <= later
    ensures Recent(Recent(log, now, window), later, window) == Recent(log, later, window)
  {
    if log != [] {
      var rest, last := log[..|log| - 1], log[|log| - 1];
      RecentTwice(rest, now, later, window);
      RecentMore(Recent(rest, now, window), last, later, window);
      if now - last >= window { assert Recent(log, now, window) == Recent(rest, now, window); }
    }
  }

  lemma {:induction false} StaleHasNoneRecent(log: seq<int>, now: int, later: int, window: int)
    requires Stale(log, now, window) && now <= later
    ensures Recent(log, later, window) == []
  {
    if log != [] {
      var rest := log[..|log| - 1];
      assert log[|log| - 1] in log && forall t | t in rest :: t in log;
      StaleHasNoneRecent(rest, now, later, window);
    }
  }

  lemma RecordedLog(logs: Logs, key: string, now: int, window: int, maxKeys: nat, other: string, later: int)
    requires now <= later
    ensures Recent(LogOf(Recorded(logs, key, now, window, maxKeys), other), later, window) ==
      Recent(LogOf(logs, other) + if other == key then [now] else [], later, window)
  {
    hide Recent, Stale;
    var kept := Recent(LogOf(logs, key), now, window);
    var more := logs[key := kept + [now]];
    RecentTwice(LogOf(logs, key), now, later, window);
    RecentMore(kept, now, later, window);
    RecentMore(LogOf(logs, key), now, later, window);
    assert LogOf(logs, other) + [] == LogOf(logs, other);
    if other in more && Stale(more[other], now, window) {
      StaleHasNoneRecent(more[other], now, later, window);
      NothingRecent(later, window);
    }
  }

  lemma NothingRecent(now: int, window: int)
    ensures Recent([], now, window) == []
  {
  }

  /** Whatever was pruned and swept, the recent part of a pruned log is that of the full history. */
  lemma {:induction false} PrunedLogAgrees(history: seq<Entry>, window: int, maxKeys: nat, key: string, now: int)
    requires InOrder(history) && (history != [] ==> history[|history| - 1].time <= now)
    ensures Recent(LogOf(LogsAfter(history, window, maxKeys), key), now, window) ==
      Recent(TimesOf(history, key), now, window)
  {
    if history != [] {
      var rest, e := history[..|history| - 1], history[|history| - 1];
      assert InOrder(rest);
      PrunedLogAgrees(rest, window, maxKeys, key, now);
      RecordedLog(LogsAfter(rest, window, maxKeys), e.key, e.time, window, maxKeys, key, now);
      RecentMore(LogOf(LogsAfter(rest, window, maxKeys), key), e.time, now, window);
      RecentMore(TimesOf(rest, key), e.time, now, window);
      if e.key != key {
        assert TimesOf(history, key) == TimesOf(rest, key);
        assert LogOf(LogsAfter(rest, window, maxKeys), key) + [] == LogOf(LogsAfter(rest, window, maxKeys), key);
      }
    }
  }

  lemma {:induction false} RecentIsCount(log: seq<int>, now: int, window: int)
    requires Ordered(log, now)
    ensures |Recent(log, now, window)| == CountIn(log, now - window + 1, now + 1)
  {
    if log != [] {
      assert Ordered(log[..|log| - 1], now);
      RecentIsCount(log[..|log| - 1], now, window);
    }
  }

  /** What `record` reports after any history. */
  function Detection(logs: Logs, key: string, now: int, window: int, threshold: int): Option<nat> {
    var count := |Recent(LogOf(logs, key), now, window)| + 1;
    if count == threshold then Some(count) else None
  }

  lemma {:induction false} TimesNotLater(history: seq<Entry>, key: string, now: int)
    requires InOrder(history) && (history != [] ==> history[|history| - 1].time <= now)
    ensures Ordered(TimesOf(history, key), now)
  {
    if history != [] {
      var rest, e := history[..|history| - 1], history[|history| - 1];
      assert InOrder(rest);
      TimesNotLater(rest, key, e.time);
    }
  }

  /** A record is reported exactly when it and the earlier records of its key within (now - window, now]
      are as many as the threshold. */
  lemma ReportsAtThreshold(history: seq<Entry>, window: int, maxKeys: nat, threshold: int, key: string, now: int)
    requires InOrder(history) && (history != [] ==> history[|history| - 1].time <= now)
    ensures Detection(LogsAfter(history, window, maxKeys), key, now, window, threshold).Some? <==>
      CountIn(TimesOf(history, key), now - window + 1, now + 1) + 1 == threshold
  {
    PrunedLogAgrees(history, window, maxKeys, key, now);
    TimesNotLater(history, key, now);
    RecentIsCount(TimesOf(history, key), now, window);
  }

  /** After a record, either few keys are tracked or each of them has a time within the window. */
  lemma TrackedKeysAreLive(logs: Logs, key: string, now: int, window: int, maxKeys: nat)
    ensures var after := Recorded(logs, key, now, window, maxKeys);
            |after| <= maxKeys || forall k | k in after :: !Stale(after[k], now, window)
  {
  }

  lemma {:induction false} LiveHasRecent(log: seq<int>, now: int, window: int)
    requires !Stale(log, now, window)
    ensures Recent(log, now, window) != []
  {
    var rest := log[..|log| - 1];
    if now - log[|log| - 1] >= window {
      assert forall t | t in log :: t == log[|log| - 1] || t in rest;
      LiveHasRecent(rest, now, window);
    }
  }

  lemma LiveKeyIsRecent(history: seq<Entry>, window: int, maxKeys: nat, key: string, now: int)
    requires InOrder(history) && (history != [] ==> history[|history| - 1].time <= now)
    requires key in LogsAfter(history, window, maxKeys)
    requires !Stale(LogsAfter(history, window, maxKeys)[key], now, window)
    ensures CountIn(TimesOf(history, key), now - window + 1, now + 1) > 0
  {
    hide LogsAfter, Recent, CountIn, TimesOf, Stale;
    LiveHasRecent(LogsAfter(history, window, maxKeys)[key], now, window);
    PrunedLogAgrees(history, window, maxKeys, key, now);
    TimesNotLater(history, key, now);
    RecentIsCount(TimesOf(history, key), now, window);
  }

  /** Which keys are tracked after a record, and with what times: a key's own times are pruned and the new one
      appended; the others go exactly if now more than `maxKeys` are tracked and all their times have left the
      window. */
  lemma RecordKeeps(logs: Logs, key: string, now: int, window: int, maxKeys: nat, k: string)
    requires window > 0
    ensures var t, tracked := Recorded(logs, key, now, window, maxKeys), |logs.Keys + {key}|;
      && (k in t <==> k == key || (k in logs && (tracked > maxKeys ==> exists x :: x in logs[k] && now - x < window)))
      && (k in t && k != key ==> t[k] == logs[k])
      && key in t && t[key] == Recent(LogOf(logs, key), now, window) + [now]
  {
    var more := logs[key := Recent(LogOf(logs, key), now, window) + [now]];
    assert more.Keys == logs.Keys + {key} && |more| == |more.Keys|;
    assert now in more[key];
    hide Recent, LogOf;
  }

  /** The memory of the detector is bounded by what is recent: after any history it tracks at most
      `maxKeys` keys, or only keys that were recorded within the window before the last record. */
  lemma TracksFewOrRecent(history: seq<Entry>, window: int, maxKeys: nat)
    requires InOrder(history) && history != []
    ensures var logs, now := LogsAfter(history, window, maxKeys), history[|history| - 1].time;
      |logs| <= maxKeys
      || forall k | k in logs :: CountIn(TimesOf(history, k), now - window + 1, now + 1) > 0
  {
    hide Recorded, CountIn, TimesOf, Stale;
    var logs, e := LogsAfter(history, window, maxKeys), history[|history| - 1];
    TrackedKeysAreLive(LogsAfter(history[..|history| - 1], window, maxKeys), e.key, e.time, window, maxKeys);
    if |logs| > maxKeys {
      forall k | k in logs ensures CountIn(TimesOf(history, k), e.time - window + 1, e.time + 1) > 0 {
        LiveKeyIsRecent(history, window, maxKeys, k, e.time);
      }
    }
  }

  lemma MoreTimes(history: seq<Entry>, key: string, t: int)
    ensures TimesOf(history + [Entry(key, t)], key) == TimesOf(history, key) + [t]
  {
    assert (history + [Entry(key, t)])[..|history|] == history;
  }

  /** Two records of a key in a row are both reported exactly when the first is and just one counted
      time leaves the window in between. */
  lemma ReportedAgain(history: seq<Entry>, window: int, maxKeys: nat, threshold: int, key: string, t: int, now: int)
    requires InOrder(history) && (history != [] ==> history[|history| - 1].time <= t) && t <= now
    requires Detection(LogsAfter(history, window, maxKeys), key, t, window, threshold).Some? && window > 0
    ensures Detection(LogsAfter(history + [Entry(key, t)], window, maxKeys), key, now, window, threshold).Some? <==>
      CountIn(TimesOf(history, key) + [t], t - window + 1, now - window + 1) == 1
  {
    hide Recorded, Recent, Detection, LogsAfter, CountIn, TimesOf;
    var h := history + [Entry(key, t)];
    MoreTimes(history, key, t);
    var f, g := TimesOf(history, key), TimesOf(h, key);
    ReportsAtThreshold(history, window, maxKeys, threshold, key, t);
    ReportsAtThreshold(h, window, maxKeys, threshold, key, now);
    TimesNotLater(h, key, t);
    CountMore(f, t, t - window + 1, t + 1);
    CountSplits(g, t - window + 1, now - window + 1, now + 1);
    CountSame(g, t - window + 1, t + 1, now + 1, t);
  }

  /** So a steady rate is reported again and again: here the second and the third record. */
  lemma SteadyRateReportsTwice(maxKeys: nat)
    ensures Detection(LogsAfter([Entry("q", 0)], 10, maxKeys), "q", 6, 10, 2).Some?
    ensures Detection(LogsAfter([Entry("q", 0), Entry("q", 6)], 10, maxKeys), "q", 12, 10, 2).Some?
  {
    hide Recorded, Recent, Detection, LogsAfter, CountIn, TimesOf;
    var h := [Entry("q", 0)];
    SteadyTimes();
    ReportsAtThreshold(h, 10, maxKeys, 2, "q", 6);
    ReportedAgain(h, 10, maxKeys, 2, "q", 6, 12);
    assert h + [Entry("q", 6)] == [Entry("q", 0), Entry("q", 6)];
  }

  lemma SteadyTimes()
    ensures TimesOf([Entry("q", 0)], "q") == [0]
    ensures CountIn([0], -3, 7) == 1 && CountIn([0] + [6], -3, 3) == 1
  {
    CountMore([0], 6, -3, 3);
  }

  lemma {:induction false} CountSplits(f: seq<int>, a: int, b: int, c: int)
    requires a <= b
    ensures b <= c ==> CountIn(f, a, c) == CountIn(f, a, b) + CountIn(f, b, c)
  {
    if f != [] { CountSplits(f[..|f| - 1], a, b, c); }
  }

  /** Times up to `now` are not affected by how far beyond it the interval reaches. */
  lemma {:induction false} CountSame(f: seq<int>, a: int, b: int, c: int, now: int)
    requires now < b && now < c && Ordered(f, now)
    ensures CountIn(f, a, b) == CountIn(f, a, c)
  {
    if f != [] {
      assert Ordered(f[..|f| - 1], now);
      CountSame(f[..|f| - 1], a, b, c, now);
    }
  }

  // --- the SMS log -----------------------------------------------------------------------------

  const MAX_PER_MINUTE: nat := 10
  const MINUTE: int := 60_000

  datatype SmsResult = InvalidPhone | OptedOut | RateLimited | Failed | Sent

  /** The log of a phone after `sendSms`: pruned by the check, appended to by a successful send. */
  function Sending(logs: Logs, phone: string, checkedAt: int, sent: bool, sentAt: int): Logs {
    var kept := Recent(LogOf(logs, phone), checkedAt, MINUTE);
    logs[phone := kept + if |kept| < MAX_PER_MINUTE && sent then [sentAt] else []]
  }

  class SmsService {
    const hasCache: bool
    var optedOutPhones: set<string>
    var rateLimitMap: Logs

    constructor (hasCache: bool)
      ensures this.hasCache == hasCache && optedOutPhones == {} && rateLimitMap == map[]
    {
      this.hasCache, optedOutPhones, rateLimitMap := hasCache, {}, map[];
    }

    method HandleOptOut(phone: string)
      modifies this`optedOutPhones
      ensures optedOutPhones == old(optedOutPhones) + {phone}
    {
      optedOutPhones := optedOutPhones + {phone};
    }

    /** With a cache service every phone counts as opted out: the code tests the result object of the lookup,
        which is there for a miss and for an error as well. */
    method IsOptedOut(phone: string) returns (optedOut: bool)
      ensures optedOut <==> phone in optedOutPhones || hasCache
    {
      if phone in optedOutPhones { return true; }
      if hasCache { return true; }
      return false;
    }

    method CheckRateLimit(phone: string, now: int) returns (below: bool)
      modifies this`rateLimitMap
      ensures rateLimitMap == old(rateLimitMap)[phone := Recent(LogOf(old(rateLimitMap), phone), now, MINUTE)]
      ensures below == (|rateLimitMap[phone]| < MAX_PER_MINUTE)
    {
      if phone !in rateLimitMap { rateLimitMap := rateLimitMap[phone := []]; }
      rateLimitMap := rateLimitMap[phone := Recent(rateLimitMap[phone], now, MINUTE)];
      below := |rateLimitMap[phone]| < MAX_PER_MINUTE;
    }

    method RecordSend(phone: string, now: int)
      modifies this`rateLimitMap
      ensures rateLimitMap == old(rateLimitMap)[phone := LogOf(old(rateLimitMap), phone) + [now]]
    {
      if phone !in rateLimitMap { rateLimitMap := rateLimitMap[phone := []]; }
      rateLimitMap := rateLimitMap[phone := rateLimitMap[phone] + [now]];
    }

    /** `sent` is the provider's answer, which arrives at `sentAt`. So no SMS is ever sent with a cache
        service, and the counter it would keep is never read. */
    method SendSms(phone: string, valid: bool, checkedAt: int, sent: bool, sentAt: int) returns (result: SmsResult)
      modifies this`rateLimitMap
      ensures !valid ==> result.InvalidPhone?
      ensures valid && (phone in optedOutPhones || hasCache) ==> result.OptedOut?
      ensures !valid || phone in optedOutPhones || hasCache ==> rateLimitMap == old(rateLimitMap)
      ensures valid && phone !in optedOutPhones && !hasCache ==>
        && rateLimitMap == Sending(old(rateLimitMap), phone, checkedAt, sent, sentAt)
        && result == if |Recent(LogOf(old(rateLimitMap), phone), checkedAt, MINUTE)| >= MAX_PER_MINUTE then RateLimited
                     else if sent then Sent else Failed
    {
      if !valid { return InvalidPhone; }
      var optedOut := IsOptedOut(phone);
      if optedOut { return OptedOut; }
      var below := CheckRateLimit(phone, checkedAt);
      assert rateLimitMap[phone] + [] == rateLimitMap[phone];
      if !below { return RateLimited; }
      if sent {
        RecordSend(phone, sentAt);
        return Sent;
      }
      return Failed;
    }
  }

  datatype Send = Send(phone: string, checkedAt: int, sent: bool, sentAt: int)

  /** Sends run one at a time on a clock that does not go back. */
  predicate SendsInOrder(sends: seq<Send>) {
    && (forall i | 0 <= i < |sends| :: sends[i].checkedAt <= sends[i].sentAt)
    && (forall i, j | 0 <= i < j < |sends| :: sends[i].sentAt <= sends[j].checkedAt)
  }

  function SmsLogs(sends: seq<Send>): Logs {
    if sends == [] then map[]
    else
      var s := sends[|sends| - 1];
      Sending(SmsLogs(sends[..|sends| - 1]), s.phone, s.checkedAt, s.sent, s.sentAt)
  }

  /** Whether the last send of a run is recorded: below the limit and accepted by the provider. */
  predicate LastRecorded(sends: seq<Send>)
    requires sends != []
  {
    var s := sends[|sends| - 1];
    s.sent && |Recent(LogOf(SmsLogs(sends[..|sends| - 1]), s.phone), s.checkedAt, MINUTE)| < MAX_PER_MINUTE
  }

  /** The recorded sends to a phone, nothing pruned. */
  function SentTimes(sends: seq<Send>, phone: string): seq<int> {
    if sends == [] then []
    else
      var s := sends[|sends| - 1];
      SentTimes(sends[..|sends| - 1], phone) + if s.phone == phone && LastRecorded(sends) then [s.sentAt] else []
  }

  lemma {:induction false} RecentCountsBack(log: seq<int>, now: int, window: int, k: nat)
    requires Ordered(log, now) && 0 < k <= |log| && now - log[|log| - k] < window
    ensures |Recent(log, now, window)| >= k
  {
    assert log[|log| - k] <= log[|log| - 1];
    if k > 1 {
      var rest := log[..|log| - 1];
      assert Ordered(rest, now);
      RecentCountsBack(rest, now, window, k - 1);
    }
  }

  ghost predicate SmsInv(sends: seq<Send>, phone: string, now: int) {
    var f := SentTimes(sends, phone);
    Ordered(f, now) && Spaced(f, MAX_PER_MINUTE, MINUTE)
    && Recent(LogOf(SmsLogs(sends), phone), now, MINUTE) == Recent(f, now, MINUTE)
  }

  /** One more send, for the phone it is to and for any other. */
  lemma SendKeepsInv(sends: seq<Send>, phone: string, s: Send)
    requires SmsInv(sends, phone, s.checkedAt) && s.checkedAt <= s.sentAt
    ensures SmsInv(sends + [s], phone, s.sentAt)
  {
    hide Recent, Spaced, SentTimes;
    var f, log := SentTimes(sends, phone), LogOf(SmsLogs(sends), phone);
    assert (sends + [s])[..|sends|] == sends;
    SentMore(sends, s, phone);
    RecentTwice(log, s.checkedAt, s.sentAt, MINUTE);
    RecentTwice(f, s.checkedAt, s.sentAt, MINUTE);
    assert f + [] == f;
    if s.phone == phone {
      var kept := Recent(log, s.checkedAt, MINUTE);
      assert kept + [] == kept;
      RecentMore(kept, s.sentAt, s.sentAt, MINUTE);
      RecentMore(f, s.sentAt, s.sentAt, MINUTE);
      if LastRecorded(sends + [s]) {
        if |f| >= MAX_PER_MINUTE && s.checkedAt - f[|f| - MAX_PER_MINUTE] < MINUTE {
          RecentCountsBack(f, s.checkedAt, MINUTE, MAX_PER_MINUTE);
        }
        PacedEvent(f, MAX_PER_MINUTE, MINUTE, s.sentAt);
      }
    }
  }

  lemma SentMore(sends: seq<Send>, s: Send, phone: string)
    ensures SentTimes(sends + [s], phone) ==
      SentTimes(sends, phone) + if s.phone == phone && LastRecorded(sends + [s]) then [s.sentAt] else []
  {
    assert (sends + [s])[..|sends|] == sends;
  }

  lemma SmsInvLater(sends: seq<Send>, phone: string, now: int, later: int)
    requires SmsInv(sends, phone, now) && now <= later
    ensures SmsInv(sends, phone, later)
  {
    RecentTwice(SentTimes(sends, phone), now, later, MINUTE);
    RecentTwice(LogOf(SmsLogs(sends), phone), now, later, MINUTE);
  }

  lemma {:induction false} SmsRunKeepsInv(sends: seq<Send>, phone: string, now: int)
    requires SendsInOrder(sends) && (sends != [] ==> sends[|sends| - 1].sentAt <= now)
    ensures SmsInv(sends, phone, now)
  {
    if sends != [] {
      var rest, s := sends[..|sends| - 1], sends[|sends| - 1];
      assert SendsInOrder(rest);
      SmsRunKeepsInv(rest, phone, s.checkedAt);
      SendKeepsInv(rest, phone, s);
      assert rest + [s] == sends;
      SmsInvLater(sends, phone, s.sentAt, now);
    }
  }

  /** At most 10 sends to a phone are recorded in any half-open minute, however long the provider takes
      between the check and the record. */
  lemma AtMostTenPerMinute(sends: seq<Send>, phone: string, a: int)
    requires SendsInOrder(sends)
    ensures CountIn(SentTimes(sends, phone), a, a + MINUTE) <= MAX_PER_MINUTE
  {
    hide SentTimes, CountIn, Recent, SmsLogs;
    var now := if sends == [] then 0 else sends[|sends| - 1].sentAt;
    SmsRunKeepsInv(sends, phone, now);
    SpacedBoundsWindow(SentTimes(sends, phone), MAX_PER_MINUTE, MINUTE, a, now);
  }
}
