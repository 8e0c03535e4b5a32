/** Fraud alerts of src/fraud/fraud.service.ts: detection opens an alert or updates the open one, review
    moves its status, and some detections block the user.

    `State` is the database: the user and alert tables and one outbox entry for each delivery of
    notifications. `Service` is the service over those tables. A filter field that the caller leaves
    undefined does not filter, as in a Prisma `where`. */
module Fraud {
  import opened Wrappers

  type UserId = string
  type AlertId = nat

  datatype Pattern =
    | ExcessiveFailedLogins | SharedIpMultipleAccounts | MultipleIpsForAccount | NewDeviceLogin
    | TokenReuse | RapidPropertyListings | DuplicatePropertyAddress | HighValueNewAccountListing
    | DuplicatePropertyImages | VelocityExceeded | ImpossibleTravel | DeviceFingerprintMismatch

  datatype Severity = Low | Medium | High | Critical

  datatype Status = Open | Investigating | Resolved | Dismissed {
    predicate Active() { Open? || Investigating? }
  }

  /** What an alert is about. */
  datatype Subject = Subject(userId: Option<UserId>, propertyId: Option<string>,
                             transactionId: Option<string>, sessionId: Option<string>)

  datatype Alert = Alert(pattern: Pattern, subject: Subject, severity: Severity, status: Status,
                         score: int, autoBlocked: bool, lastDetectedAt: int, occurrenceCount: nat,
                         resolvedAt: Option<int>)

  datatype Payload = Payload(pattern: Pattern, subject: Subject, severity: Severity, score: int,
                             autoBlockUser: bool)

  datatype User = User(isBlocked: bool, isDeactivated: bool)

  datatype State = State(users: map<UserId, User>, alerts: map<AlertId, Alert>, outbox: seq<AlertId>)

  function SeverityRank(s: Severity): nat {
    match s
    case Critical => 4
    case High => 3
    case Medium => 2
    case Low => 1
  }

  // --- the steps as functions ------------------------------------------------------------------

  predicate Allows<T(==)>(filter: Option<T>, value: Option<T>) {
    filter.None? || filter == value
  }

  /** The filter of `findOpenAlert`. */
  predicate Matches(a: Alert, p: Payload) {
    && a.pattern == p.pattern && a.status.Active()
    && Allows(p.subject.userId, a.subject.userId)
    && Allows(p.subject.propertyId, a.subject.propertyId)
    && Allows(p.subject.transactionId, a.subject.transactionId)
    && Allows(p.subject.sessionId, a.subject.sessionId)
  }

  predicate NoMatch(s: State, p: Payload) {
    forall j | j in s.alerts :: !Matches(s.alerts[j], p)
  }

  /** `id` is an open alert that the payload matches, and none was detected later. */
  predicate LatestMatch(s: State, p: Payload, id: AlertId) {
    && id in s.alerts && Matches(s.alerts[id], p)
    && forall j | j in s.alerts && Matches(s.alerts[j], p) ::
         s.alerts[j].lastDetectedAt <= s.alerts[id].lastDetectedAt
  }

  /** The alert that a detection touches: the latest match, or a new one when nothing matches. */
  predicate Touches(s: State, p: Payload, id: AlertId) {
    if id in s.alerts then LatestMatch(s, p, id) else NoMatch(s, p)
  }

  /** The payload's user, if it names one, exists. */
  predicate UserKnown(s: State, p: Payload) {
    p.subject.userId.Some? ==> p.subject.userId.value in s.users
  }

  function BlockUser(s: State, user: UserId, id: AlertId): State
    requires user in s.users && id in s.alerts
  {
    s.(users := s.users[user := s.users[user].(isBlocked := true)],
       alerts := s.alerts[id := s.alerts[id].(autoBlocked := true)])
  }

  predicate SystemUser(u: Option<UserId>) {
    u.Some? && "system-" <= u.value
  }

  /** A detection that finds the open alert `id`. */
  function Update(s: State, p: Payload, now: int, id: AlertId): State
    requires id in s.alerts && UserKnown(s, p)
  {
    var a := s.alerts[id];
    var increased := SeverityRank(p.severity) > SeverityRank(a.severity);
    var b := a.(severity := if increased then p.severity else a.severity,
                score := if a.score >= p.score then a.score else p.score,
                lastDetectedAt := now, occurrenceCount := a.occurrenceCount + 1,
                autoBlocked := a.autoBlocked || p.autoBlockUser);
    var t := s.(alerts := s.alerts[id := b],
                outbox := if increased || b.occurrenceCount % 5 == 0 then s.outbox + [id] else s.outbox);
    if p.autoBlockUser && p.subject.userId.Some? && !a.autoBlocked && !SystemUser(a.subject.userId)
    then BlockUser(t, p.subject.userId.value, id) else t
  }

  /** A detection that opens the alert `id`. */
  function Create(s: State, p: Payload, now: int, id: AlertId): State
    requires id !in s.alerts && UserKnown(s, p)
  {
    var a := Alert(p.pattern, p.subject, p.severity, Open, p.score, p.autoBlockUser, now, 1, None);
    var t := s.(alerts := s.alerts[id := a], outbox := s.outbox + [id]);
    if p.autoBlockUser && p.subject.userId.Some? then BlockUser(t, p.subject.userId.value, id) else t
  }

  function Detect(s: State, p: Payload, now: int, id: AlertId): State
    requires UserKnown(s, p)
  {
    if id in s.alerts then Update(s, p, now, id) else Create(s, p, now, id)
  }

  /** A review: an explicit status, a note, an assignee, and whether to block the user. */
  datatype ReviewRequest = ReviewRequest(status: Option<Status>, note: bool, assignee: bool,
                                         blockUser: bool)

  function NextStatus(a: Alert, r: ReviewRequest): Status {
    if r.status.Some? then r.status.value
    else if r.note || r.assignee then Investigating
    else a.status
  }

  predicate CanReview(s: State, id: AlertId) {
    id in s.alerts && (s.alerts[id].subject.userId.Some? ==> s.alerts[id].subject.userId.value in s.users)
  }

  function Review(s: State, id: AlertId, r: ReviewRequest, now: int): State
    requires CanReview(s, id)
  {
    var a := s.alerts[id];
    var next := NextStatus(a, r);
    var t := s.(alerts := s.alerts[id :=
      a.(status := next, resolvedAt := if next.Active() then None else Some(now))]);
    if r.blockUser && a.subject.userId.Some? then BlockUser(t, a.subject.userId.value, id) else t
  }

  function SetBlocked(s: State, user: UserId, blocked: bool): State
    requires user in s.users
  {
    s.(users := s.users[user := s.users[user].(isBlocked := blocked)])
  }

  // --- the service -----------------------------------------------------------------------------

  datatype Outcome = Done | NotFound

  /** Of some alerts, one was detected last. */
  lemma {:induction false} LatestOf(alerts: map<AlertId, Alert>, ids: set<AlertId>) returns (id: AlertId)
    requires ids != {} && ids <= alerts.Keys
    ensures id in ids
    ensures forall j | j in ids :: alerts[j].lastDetectedAt <= alerts[id].lastDetectedAt
  {
    id :| id in ids;
    if ids != {id} {
      var best := LatestOf(alerts, ids - {id});
      if alerts[best].lastDetectedAt > alerts[id].lastDetectedAt { id := best; }
    }
  }

  lemma LatestMatchExists(s: State, p: Payload, some: AlertId) returns (id: AlertId)
    requires some in s.alerts && Matches(s.alerts[some], p)
    ensures LatestMatch(s, p, id)
  {
    hide Matches;
    var all := set j | j in s.alerts && Matches(s.alerts[j], p);
    assert some in all;
    id := LatestOf(s.alerts, all);
  }

  lemma FreshAlert(alerts: map<AlertId, Alert>) returns (id: AlertId)
    ensures id !in alerts
  {
    id := 0;
    while exists j | j in alerts :: j >= id
      decreases |set j | j in alerts && j >= id|
    {
      var j :| j in alerts && j >= id;
      var before := set k | k in alerts && k >= id;
      var after := set k | k in alerts && k >= j + 1;
      assert after <= before - {j};
      SubsetSize(after, before - {j});
      id := j + 1;
    }
  }

  lemma {:induction false} SubsetSize<T>(a: set<T>, b: set<T>)
    requires a <= b
    ensures |a| <= |b|
  {
    if a != {} {
      var x :| x in a;
      SubsetSize(a - {x}, b - {x});
    }
  }

  class Service {
    var users: map<UserId, User>
    var alerts: map<AlertId, Alert>
    var outbox: seq<AlertId>

    ghost function Tables(): State
      reads this
    {
      State(users, alerts, outbox)
    }

    constructor (users: map<UserId, User>)
      ensures Tables() == State(users, map[], [])
    {
      this.users, alerts, outbox := users, map[], [];
    }

    /** The alert to update, if there is one. */
    method FindOpenAlert(p: Payload) returns (found: Option<AlertId>)
      ensures found.None? <==> NoMatch(Tables(), p)
      ensures found.Some? ==> LatestMatch(Tables(), p, found.value)
    {
      hide Matches;
      if id :| id in alerts && Matches(alerts[id], p) {
        ghost var best := LatestMatchExists(Tables(), p, id);
        var latest :| latest in alerts && Matches(alerts[latest], p)
          && forall j | j in alerts && Matches(alerts[j], p) ::
               alerts[j].lastDetectedAt <= alerts[latest].lastDetectedAt;
        return Some(latest);
      }
      return None;
    }

    method BlockUserForFraud(user: UserId, id: AlertId)
      requires user in users && id in alerts
      modifies this
      ensures Tables() == BlockUser(old(Tables()), user, id)
    {
      users := users[user := users[user].(isBlocked := true)];
      alerts := alerts[id := alerts[id].(autoBlocked := true)];
    }

    method CreateOrUpdateAlert(p: Payload, now: int) returns (id: AlertId)
      requires UserKnown(Tables(), p)
      modifies this
      ensures Touches(old(Tables()), p, id)
      ensures Tables() == Detect(old(Tables()), p, now, id)
    {
      var existing := FindOpenAlert(p);
      if existing.Some? {
        id := existing.value;
        var a := alerts[id];
        var severityIncreased := SeverityRank(p.severity) > SeverityRank(a.severity);
        var updated := a.(
          severity := if severityIncreased then p.severity else a.severity,
          score := if a.score >= p.score then a.score else p.score,
          lastDetectedAt := now,
          occurrenceCount := a.occurrenceCount + 1,
          autoBlocked := a.autoBlocked || p.autoBlockUser);
        alerts := alerts[id := updated];
        if severityIncreased || updated.occurrenceCount % 5 == 0 { outbox := outbox + [id]; }
        if p.autoBlockUser && p.subject.userId.Some? && !a.autoBlocked
           && !SystemUser(a.subject.userId) {
          BlockUserForFraud(p.subject.userId.value, id);
        }
        return;
      }
      ghost var unused := FreshAlert(alerts);
      id :| id !in alerts;
      alerts := alerts[id :=
        Alert(p.pattern, p.subject, p.severity, Open, p.score, p.autoBlockUser, now, 1, None)];
      outbox := outbox + [id];
      if p.autoBlockUser && p.subject.userId.Some? {
        BlockUserForFraud(p.subject.userId.value, id);
      }
    }

    /** The detection of a reused token: always critical, always blocking. */
    method HandleTokenReuse(user: UserId, session: Option<string>, now: int) returns (id: AlertId)
      requires user in users
      modifies this
      ensures Touches(old(Tables()), ReusePayload(user, session), id)
      ensures Tables() == Detect(old(Tables()), ReusePayload(user, session), now, id)
    {
      id := CreateOrUpdateAlert(ReusePayload(user, session), now);
    }

    method ReviewAlert(id: AlertId, r: ReviewRequest, now: int) returns (o: Outcome)
      requires id in alerts ==> CanReview(Tables(), id)
      modifies this
      ensures o == if id in old(alerts) then Done else NotFound
      ensures Tables() == if o.Done? then Review(old(Tables()), id, r, now) else old(Tables())
    {
      if id !in alerts { return NotFound; }
      var a := alerts[id];
      var next := NextStatus(a, r);
      alerts := alerts[id :=
        a.(status := next,
           resolvedAt := if next == Resolved || next == Dismissed then Some(now) else None)];
      if r.blockUser && a.subject.userId.Some? { BlockUserForFraud(a.subject.userId.value, id); }
      return Done;
    }
  }

  function ReusePayload(user: UserId, session: Option<string>): Payload {
    Payload(TokenReuse, Subject(Some(user), None, None, session), Critical, 100, true)
  }

  // --- what every run keeps --------------------------------------------------------------------

  datatype Event =
    | Detected(p: Payload, now: int, touched: AlertId)
    | Reviewed(id: AlertId, r: ReviewRequest, reviewedAt: int)
    | BlockedFromAlert(alert: AlertId)
    | AdminSets(user: UserId, blocked: bool)

  predicate Enabled(s: State, e: Event) {
    match e
    case Detected(p, _, id) => UserKnown(s, p) && Touches(s, p, id)
    case Reviewed(id, _, _) => CanReview(s, id)
    case BlockedFromAlert(id) => CanReview(s, id) && s.alerts[id].subject.userId.Some?
    case AdminSets(user, _) => user in s.users
  }

  function Apply(s: State, e: Event): State
    requires Enabled(s, e)
  {
    match e
    case Detected(p, now, id) => Detect(s, p, now, id)
    case Reviewed(id, r, now) => Review(s, id, r, now)
    case BlockedFromAlert(id) => BlockUser(s, s.alerts[id].subject.userId.value, id)
    case AdminSets(user, blocked) => SetBlocked(s, user, blocked)
  }

  predicate IsRun(s: State, events: seq<Event>)
    decreases |events|
  {
    events == [] || (Enabled(s, events[0]) && IsRun(Apply(s, events[0]), events[1..]))
  }

  function After(s: State, events: seq<Event>): State
    requires IsRun(s, events)
    decreases |events|
  {
    if events == [] then s else After(Apply(s, events[0]), events[1..])
  }

  function Deliveries(outbox: seq<AlertId>, id: AlertId): nat {
    multiset(outbox)[id]
  }

  /** `resolvedAt` says whether an alert is closed; deliveries are bounded by the severity reached and
      the occurrences; every alert for a reused token is marked as blocking a user. */
  ghost predicate Consistent(s: State) {
    && (forall id | id in s.alerts :: ConsistentAlert(s, id))
    && (forall id | id in s.outbox :: id in s.alerts)
  }

  ghost predicate ConsistentAlert(s: State, id: AlertId)
    requires id in s.alerts
  {
    var a := s.alerts[id];
    && (a.resolvedAt.Some? <==> !a.status.Active())
    && Deliveries(s.outbox, id) <= SeverityRank(a.severity) + a.occurrenceCount / 5
    && (a.pattern == TokenReuse ==> a.autoBlocked && a.subject.userId.Some?)
  }

  /** A detection of a reused token names a user and asks to block it, as `handleTokenReuse` does. */
  predicate WellFormed(e: Event) {
    e.Detected? && e.p.pattern == TokenReuse ==> e.p.autoBlockUser && e.p.subject.userId.Some?
  }

  lemma Delivered(outbox: seq<AlertId>, id: AlertId, j: AlertId)
    ensures Deliveries(outbox + [id], j) == Deliveries(outbox, j) + if j == id then 1 else 0
  {
  }

  lemma {:induction false} StepKeepsConsistent(s: State, e: Event)
    requires Consistent(s) && Enabled(s, e) && WellFormed(e)
    ensures Consistent(Apply(s, e))
  {
    var t := Apply(s, e);
    OutboxKept(s, e);
    hide Apply, ConsistentAlert;
    forall j | j in t.alerts ensures ConsistentAlert(t, j) {
      StepKeepsAlert(s, e, j);
    }
  }

  lemma OutboxKept(s: State, e: Event)
    requires Enabled(s, e) && forall id | id in s.outbox :: id in s.alerts
    ensures forall id | id in Apply(s, e).outbox :: id in Apply(s, e).alerts
  {
  }

  lemma StepKeepsAlert(s: State, e: Event, j: AlertId)
    requires Consistent(s) && Enabled(s, e) && WellFormed(e) && j in Apply(s, e).alerts
    ensures ConsistentAlert(Apply(s, e), j)
  {
    if j in s.alerts { assert ConsistentAlert(s, j); } else { assert j !in s.outbox; }
    match e {
      case Detected(p, now, id) =>
        if id in s.alerts { UpdateKeepsAlert(s, p, now, id, j); } else { CreateKeepsAlert(s, p, now, id, j); }
      case _ =>
    }
  }

  lemma UpdateKeepsAlert(s: State, p: Payload, now: int, id: AlertId, j: AlertId)
    requires id in s.alerts && UserKnown(s, p) && j in s.alerts && ConsistentAlert(s, j)
    ensures j in Update(s, p, now, id).alerts && ConsistentAlert(Update(s, p, now, id), j)
  {
    Delivered(s.outbox, id, j);
    hide Deliveries;
  }

  lemma CreateKeepsAlert(s: State, p: Payload, now: int, id: AlertId, j: AlertId)
    requires id !in s.alerts && UserKnown(s, p) && id !in s.outbox
    requires p.pattern == TokenReuse ==> p.autoBlockUser && p.subject.userId.Some?
    requires j == id || (j in s.alerts && ConsistentAlert(s, j))
    ensures ConsistentAlert(Create(s, p, now, id), j)
  {
    Delivered(s.outbox, id, j);
  }

  /** What no step undoes: an alert stays, its severity and score never fall, `autoBlocked` never
      clears, and its pattern and subject never change. */
  ghost predicate Grows(s: State, t: State) {
    forall id | id in s.alerts :: id in t.alerts && GrowsAlert(s.alerts[id], t.alerts[id])
  }

  predicate GrowsAlert(a: Alert, b: Alert) {
    && SeverityRank(a.severity) <= SeverityRank(b.severity) && a.score <= b.score
    && (a.autoBlocked ==> b.autoBlocked)
    && a.pattern == b.pattern && a.subject == b.subject
    && a.occurrenceCount <= b.occurrenceCount
  }

  lemma StepGrows(s: State, e: Event)
    requires Enabled(s, e)
    ensures Grows(s, Apply(s, e))
  {
  }

  /** Over every run, the consistency of the tables is kept and alerts only grow. */
  lemma {:induction false} RunKeepsConsistent(s: State, events: seq<Event>)
    requires Consistent(s) && IsRun(s, events) && forall e | e in events :: WellFormed(e)
    ensures Consistent(After(s, events)) && Grows(s, After(s, events))
    decreases |events|
  {
    hide Apply, Enabled, Consistent, WellFormed;
    if events != [] {
      StepKeepsConsistent(s, events[0]);
      StepGrows(s, events[0]);
      RunKeepsConsistent(Apply(s, events[0]), events[1..]);
    }
  }

  /** The detections of a run that touch the alert. */
  function Detections(events: seq<Event>, id: AlertId): nat {
    if events == [] then 0
    else (if events[0].Detected? && events[0].touched == id then 1 else 0) + Detections(events[1..], id)
  }

  /** Occurrences are counted exactly: an alert has as many more of them as detections touched it. */
  lemma {:induction false} OccurrencesAreDetections(s: State, events: seq<Event>, id: AlertId)
    requires IsRun(s, events) && id in After(s, events).alerts
    ensures After(s, events).alerts[id].occurrenceCount ==
      (if id in s.alerts then s.alerts[id].occurrenceCount else 0) + Detections(events, id)
    decreases |events|
  {
    if events != [] {
      OccurrencesAreDetections(Apply(s, events[0]), events[1..], id);
    }
  }

  /** Notifications for one alert are delivered at most four times plus once for each multiple of
      five that its occurrences reach. */
  lemma DeliveryBound(users: map<UserId, User>, events: seq<Event>, id: AlertId)
    requires IsRun(State(users, map[], []), events) && forall e | e in events :: WellFormed(e)
    requires id in After(State(users, map[], []), events).alerts
    ensures var t := After(State(users, map[], []), events);
      Deliveries(t.outbox, id) <= 4 + t.alerts[id].occurrenceCount / 5
  {
    RunKeepsConsistent(State(users, map[], []), events);
    assert ConsistentAlert(After(State(users, map[], []), events), id);
  }

  // --- one active alert per subject ------------------------------------------------------------

  predicate SameTuple(a: Alert, b: Alert) {
    a.pattern == b.pattern && a.subject == b.subject
  }

  /** At most one active alert for each exact pattern and subject. */
  ghost predicate UniqueActive(s: State) {
    forall i, j | i in s.alerts && j in s.alerts && i != j ::
      !(s.alerts[i].status.Active() && s.alerts[j].status.Active() && SameTuple(s.alerts[i], s.alerts[j]))
  }

  /** The review makes a closed alert active while another active one has the same tuple. */
  ghost predicate Reopens(s: State, id: AlertId, r: ReviewRequest)
    requires CanReview(s, id)
  {
    && !s.alerts[id].status.Active() && NextStatus(s.alerts[id], r).Active()
    && exists j | j in s.alerts && j != id :: s.alerts[j].status.Active() && SameTuple(s.alerts[j], s.alerts[id])
  }

  /** A step keeps active alerts unique, exactly unless it is a review that reopens a duplicate. */
  lemma StepKeepsUnique(s: State, e: Event)
    requires UniqueActive(s) && Enabled(s, e)
    ensures UniqueActive(Apply(s, e)) <==> !(e.Reviewed? && Reopens(s, e.id, e.r))
  {
    var t := Apply(s, e);
    if e.Reviewed? && Reopens(s, e.id, e.r) {
      var j :| j in s.alerts && j != e.id && s.alerts[j].status.Active() && SameTuple(s.alerts[j], s.alerts[e.id]);
      assert t.alerts[j].status.Active() && t.alerts[e.id].status.Active();
    } else if e.Detected? && e.touched !in s.alerts {
      forall j | j in s.alerts && s.alerts[j].status.Active()
        ensures !SameTuple(s.alerts[j], t.alerts[e.touched])
      {
        assert !Matches(s.alerts[j], e.p);
      }
    }
  }

  /** Review never reopens a closed alert in this run. */
  predicate NeverReopens(s: State, events: seq<Event>)
    requires IsRun(s, events)
    decreases |events|
  {
    events == [] ||
    ((events[0].Reviewed? && !s.alerts[events[0].id].status.Active() ==>
        !NextStatus(s.alerts[events[0].id], events[0].r).Active())
     && NeverReopens(Apply(s, events[0]), events[1..]))
  }

  lemma {:induction false} RunKeepsUnique(s: State, events: seq<Event>)
    requires UniqueActive(s) && IsRun(s, events) && NeverReopens(s, events)
    ensures UniqueActive(After(s, events))
    decreases |events|
  {
    if events != [] {
      StepKeepsUnique(s, events[0]);
      RunKeepsUnique(Apply(s, events[0]), events[1..]);
    }
  }

  /** A note alone reopens a closed alert: detect, dismiss, detect again, then add a note to the
      first alert, and two active alerts have the same tuple. */
  lemma NoteReopensDuplicate()
    ensures var p := Payload(NewDeviceLogin, Subject(Some("u"), None, None, None), Low, 24, false);
      var events := [Detected(p, 1, 0), Reviewed(0, ReviewRequest(Some(Dismissed), false, false, false), 2),
        Detected(p, 3, 1), Reviewed(0, ReviewRequest(None, true, false, false), 4)];
      var s := State(map["u" := User(false, false)], map[], []);
      IsRun(s, events) && !UniqueActive(After(s, events))
  {
    var p := Payload(NewDeviceLogin, Subject(Some("u"), None, None, None), Low, 24, false);
    var dismiss, note := ReviewRequest(Some(Dismissed), false, false, false), ReviewRequest(None, true, false, false);
    var s := State(map["u" := User(false, false)], map[], []);
    var e0, e1, e2, e3 := Detected(p, 1, 0), Reviewed(0, dismiss, 2), Detected(p, 3, 1), Reviewed(0, note, 4);
    var s1 := Apply(s, e0);
    var s2 := Apply(s1, e1);
    assert !Matches(s2.alerts[0], p);
    var s3 := Apply(s2, e2);
    var s4 := Apply(s3, e3);
    assert s4.alerts[0].status.Active() && s4.alerts[1].status.Active() && SameTuple(s4.alerts[0], s4.alerts[1]);
    var events := [e0, e1, e2, e3];
    assert events[1..] == [e1, e2, e3] && events[1..][1..] == [e2, e3] && [e2, e3][1..] == [e3];
    assert IsRun(s3, [e3]) && After(s3, [e3]) == s4;
    assert IsRun(s2, [e2, e3]) && After(s2, [e2, e3]) == s4;
    assert IsRun(s1, [e1, e2, e3]) && After(s1, [e1, e2, e3]) == s4;
  }

  // --- blocking on token reuse -----------------------------------------------------------------

  /** The user of every alert for a reused token is blocked. */
  ghost predicate ReuseBlocks(s: State) {
    forall id | id in s.alerts && s.alerts[id].pattern == TokenReuse ::
      var u := s.alerts[id].subject.userId; u.Some? && u.value in s.users && s.users[u.value].isBlocked
  }

  /** Every step but an admin's unblocking keeps blocked users blocked. */
  lemma StepKeepsBlocked(s: State, e: Event, u: UserId)
    requires Enabled(s, e) && u in s.users && s.users[u].isBlocked
    requires e.AdminSets? ==> e.blocked
    ensures u in Apply(s, e).users && Apply(s, e).users[u].isBlocked
  {
  }

  /** So it keeps the users of reuse alerts blocked: a new such alert blocks its user. */
  lemma StepKeepsReuseBlocks(s: State, e: Event)
    requires Consistent(s) && ReuseBlocks(s) && Enabled(s, e) && WellFormed(e)
    requires e.AdminSets? ==> e.blocked
    ensures ReuseBlocks(Apply(s, e))
  {
    var t := Apply(s, e);
    forall id | id in t.alerts && t.alerts[id].pattern == TokenReuse
      ensures var u := t.alerts[id].subject.userId; u.Some? && u.value in t.users && t.users[u.value].isBlocked
    {
      if id in s.alerts {
        SubjectKept(s, e, id);
        StepKeepsBlocked(s, e, s.alerts[id].subject.userId.value);
      }
    }
  }

  lemma SubjectKept(s: State, e: Event, id: AlertId)
    requires Enabled(s, e) && id in s.alerts
    ensures id in Apply(s, e).alerts
    ensures Apply(s, e).alerts[id].subject == s.alerts[id].subject
    ensures Apply(s, e).alerts[id].pattern == s.alerts[id].pattern
  {
  }

  /** A detected reuse leaves its user blocked: by this step or, when the alert was already open, by
      the step that opened it. */
  lemma ReuseBlocksUser(s: State, user: UserId, session: Option<string>, now: int, id: AlertId)
    requires Consistent(s) && ReuseBlocks(s) && user in s.users
    requires Touches(s, ReusePayload(user, session), id)
    ensures Detect(s, ReusePayload(user, session), now, id).users[user].isBlocked
  {
    if id in s.alerts { assert ConsistentAlert(s, id); }
  }

  /** Without that invariant, as after an admin's unblocking, a reuse blocks the user exactly when no
      alert for it is open. */
  lemma ReuseAfterUnblock(s: State, user: UserId, session: Option<string>, now: int, id: AlertId)
    requires Consistent(s) && user in s.users && !s.users[user].isBlocked
    requires Touches(s, ReusePayload(user, session), id)
    ensures Detect(s, ReusePayload(user, session), now, id).users[user].isBlocked <==>
      NoMatch(s, ReusePayload(user, session))
  {
    if id in s.alerts {
      assert ConsistentAlert(s, id);
      assert Matches(s.alerts[id], ReusePayload(user, session));
    }
  }

  /** A reuse, an admin's unblocking, and the same reuse again: the user stays unblocked. */
  lemma SecondReuseLeavesUnblocked(user: UserId, session: Option<string>)
    ensures var s, p := State(map[user := User(false, false)], map[], []), ReusePayload(user, session);
      var events := [Detected(p, 1, 0), AdminSets(user, false), Detected(p, 2, 0)];
      IsRun(s, events) && user in After(s, events).users && !After(s, events).users[user].isBlocked
  {
    var s, p := State(map[user := User(false, false)], map[], []), ReusePayload(user, session);
    var e1, e2, e3 := Detected(p, 1, 0), AdminSets(user, false), Detected(p, 2, 0);
    var s1 := Apply(s, e1);
    var s2 := Apply(s1, e2);
    assert Matches(s2.alerts[0], p) && s2.alerts[0].autoBlocked;
    var s3 := Apply(s2, e3);
    var events := [e1, e2, e3];
    assert events[1..] == [e2, e3] && [e2, e3][1..] == [e3];
    assert IsRun(s2, [e3]) && After(s2, [e3]) == s3;
    assert IsRun(s1, [e2, e3]) && After(s1, [e2, e3]) == s3;
  }
}
