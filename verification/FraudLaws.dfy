/** What a review, a detection and a run of module Fraud do to each field: who is blocked, which severity and
    score an alert carries, and which notifications are sent. */
module FraudLaws {
  import opened Fraud
  import opened Wrappers

  // --- reviews ---------------------------------------------------------------------------------

  /** A review takes the explicit status; else a note or an assignee means Investigating; else the status
      stays. */
  lemma ReviewSetsStatus(s: State, id: AlertId, r: ReviewRequest, now: int)
    requires CanReview(s, id)
    ensures var a, b := s.alerts[id], Review(s, id, r, now).alerts[id];
      && (r.status.Some? ==> b.status == r.status.value)
      && (r.status.None? && (r.note || r.assignee) ==> b.status == Investigating)
      && (r.status.None? && !r.note && !r.assignee ==> b.status == a.status)
      && (b.resolvedAt == None <==> b.status == Open || b.status == Investigating)
      && (b.resolvedAt == Some(now) <==> b.status == Resolved || b.status == Dismissed)
  {
  }

  /** After a review a user is blocked exactly if it was before, or the request asks for it and the alert
      names the user. The same goes for the mark on the alert; every other user, alert and field is as it
      was, and nothing is sent. */
  lemma ReviewBlocksExactly(s: State, id: AlertId, r: ReviewRequest, now: int)
    requires CanReview(s, id)
    ensures var a, t := s.alerts[id], Review(s, id, r, now);
      && t.users.Keys == s.users.Keys
      && (forall u | u in s.users ::
            && (t.users[u].isBlocked <==> s.users[u].isBlocked || (r.blockUser && a.subject.userId == Some(u)))
            && t.users[u].isDeactivated == s.users[u].isDeactivated)
      && t.alerts.Keys == s.alerts.Keys && (forall j | j in s.alerts && j != id :: t.alerts[j] == s.alerts[j])
      && (t.alerts[id].autoBlocked <==> a.autoBlocked || (r.blockUser && a.subject.userId.Some?))
      && t.alerts[id].(status := a.status, resolvedAt := a.resolvedAt, autoBlocked := a.autoBlocked) == a
      && t.outbox == s.outbox
  {
  }

  // --- detections ------------------------------------------------------------------------------

  /** The field is named by the detection and differs from the alert's. */
  predicate Differs<T(==)>(named: Option<T>, held: Option<T>) {
    named.Some? && (held.None? || named.value != held.value)
  }

  /** An alert is in line with a detection: of its pattern, not closed, and with no named field differing. */
  predicate InLine(a: Alert, p: Payload) {
    && a.pattern == p.pattern && a.status != Resolved && a.status != Dismissed
    && !Differs(p.subject.userId, a.subject.userId) && !Differs(p.subject.propertyId, a.subject.propertyId)
    && !Differs(p.subject.transactionId, a.subject.transactionId)
    && !Differs(p.subject.sessionId, a.subject.sessionId)
  }

  /** A detection opens an alert exactly if none is in line with it; otherwise it updates one of those that
      were detected last. */
  lemma DetectionTouches(s: State, p: Payload, id: AlertId)
    requires Touches(s, p, id)
    ensures id !in s.alerts <==> forall j | j in s.alerts :: !InLine(s.alerts[j], p)
    ensures id in s.alerts ==>
      && InLine(s.alerts[id], p)
      && forall j | j in s.alerts && s.alerts[id].lastDetectedAt < s.alerts[j].lastDetectedAt :: !InLine(s.alerts[j], p)
  {
    assert forall j | j in s.alerts :: Matches(s.alerts[j], p) <==> InLine(s.alerts[j], p);
  }

  /** What a detection leaves: the touched alert says what was detected, with the higher severity and score of
      the two, and no other alert changes. */
  lemma DetectionRecords(s: State, p: Payload, now: int, id: AlertId)
    requires UserKnown(s, p) && Touches(s, p, id)
    ensures var t := Detect(s, p, now, id);
      && t.alerts.Keys == s.alerts.Keys + {id} && (forall j | j in s.alerts && j != id :: t.alerts[j] == s.alerts[j])
      && t.alerts[id].pattern == p.pattern && t.alerts[id].lastDetectedAt == now && t.alerts[id].status.Active()
      && SeverityRank(p.severity) <= SeverityRank(t.alerts[id].severity) && p.score <= t.alerts[id].score
      && (id !in s.alerts ==>
           t.alerts[id] == Alert(p.pattern, p.subject, p.severity, Open, p.score, p.autoBlockUser, now, 1, None))
      && (id in s.alerts ==>
           && t.alerts[id].severity in {s.alerts[id].severity, p.severity}
           && t.alerts[id].score in {s.alerts[id].score, p.score}
           && t.alerts[id].subject == s.alerts[id].subject && t.alerts[id].status == s.alerts[id].status
           && t.alerts[id].resolvedAt == s.alerts[id].resolvedAt)
  {
  }

  /** A detected reuse leaves a critical alert with at least 100 points that names the user, and the session if
      there is one. */
  lemma ReuseRecords(s: State, user: UserId, session: Option<string>, now: int, id: AlertId)
    requires user in s.users && Touches(s, ReusePayload(user, session), id)
    ensures var a := Detect(s, ReusePayload(user, session), now, id).alerts[id];
      && a.pattern == TokenReuse && a.severity == Critical && a.autoBlocked
      && a.score == (if id in s.alerts then Higher(s.alerts[id].score, 100) else 100)
      && a.subject.userId == Some(user) && (session.Some? ==> a.subject.sessionId == session)
      && a.lastDetectedAt == now
  {
  }

  // --- who is blocked --------------------------------------------------------------------------

  /** A system account: its identifier starts with `system-`. */
  predicate IsSystem(u: Option<UserId>) { u.Some? && |u.value| >= 7 && u.value[..7] == "system-" }

  /** The step blocks the user: an admin does, or a blocking review or manual block of an alert that names the
      user, or a blocking detection that names it. A detection that updates an alert blocks nobody if the
      alert is marked already, or is about a system account. */
  predicate Blocks(s: State, e: Event, u: UserId)
    requires Enabled(s, e)
  {
    match e
    case Detected(p, _, id) =>
      p.autoBlockUser && p.subject.userId == Some(u)
      && (id in s.alerts ==> !s.alerts[id].autoBlocked && !IsSystem(s.alerts[id].subject.userId))
    case Reviewed(id, r, _) => r.blockUser && s.alerts[id].subject.userId == Some(u)
    case BlockedFromAlert(id) => s.alerts[id].subject.userId == Some(u)
    case AdminSets(user, blocked) => user == u && blocked
  }

  /** A step leaves a user blocked exactly if it blocks it, or it was blocked and no admin unblocks it. */
  lemma StepBlocksExactly(s: State, e: Event, u: UserId)
    requires Enabled(s, e) && u in s.users
    ensures Apply(s, e).users.Keys == s.users.Keys
    ensures Apply(s, e).users[u].isBlocked <==>
      Blocks(s, e, u) || (s.users[u].isBlocked && e != AdminSets(u, false))
    ensures Apply(s, e).users[u].isDeactivated == s.users[u].isDeactivated
  {
  }

  /** Some step of the run blocks the user, and no later one unblocks it. */
  predicate BlockedAlong(s: State, events: seq<Event>, u: UserId)
    requires IsRun(s, events)
    decreases |events|
  {
    events != []
    && ((Blocks(s, events[0], u) && AdminSets(u, false) !in events[1..])
        || BlockedAlong(Apply(s, events[0]), events[1..], u))
  }

  /** After a run a user is blocked exactly if a step blocked it, or it was blocked at the start, and no admin
      has unblocked it since. */
  lemma {:induction false} RunBlocksExactly(s: State, events: seq<Event>, u: UserId)
    requires IsRun(s, events) && u in s.users
    ensures After(s, events).users.Keys == s.users.Keys
    ensures After(s, events).users[u].isBlocked <==>
      BlockedAlong(s, events, u) || (s.users[u].isBlocked && AdminSets(u, false) !in events)
    decreases |events|
  {
    if events != [] {
      hide Apply, Enabled, Blocks;
      assert events == [events[0]] + events[1..];
      StepBlocksExactly(s, events[0], u);
      RunBlocksExactly(Apply(s, events[0]), events[1..], u);
    }
  }

  /** The mark on an alert: set by a blocking detection, a blocking review or a manual block, and never
      cleared. */
  lemma StepMarksExactly(s: State, e: Event, id: AlertId)
    requires Enabled(s, e) && id in s.alerts
    ensures id in Apply(s, e).alerts
    ensures Apply(s, e).alerts[id].autoBlocked <==>
      || s.alerts[id].autoBlocked
      || (e.Detected? && e.touched == id && e.p.autoBlockUser)
      || (e.Reviewed? && e.id == id && e.r.blockUser && s.alerts[id].subject.userId.Some?)
      || (e.BlockedFromAlert? && e.alert == id)
  {
  }

  // --- severity, score and notifications -------------------------------------------------------

  function Higher(x: int, y: int): int { if x < y then y else x }

  /** The highest rank, and the highest score, of the detections that touch the alert, and of the start. */
  function HighestRank(events: seq<Event>, id: AlertId, start: nat): nat {
    if events == [] then start
    else if events[0].Detected? && events[0].touched == id then
      HighestRank(events[1..], id, Higher(start, SeverityRank(events[0].p.severity)))
    else HighestRank(events[1..], id, start)
  }

  function HighestScore(events: seq<Event>, id: AlertId, start: int): int {
    if events == [] then start
    else if events[0].Detected? && events[0].touched == id then
      HighestScore(events[1..], id, Higher(start, events[0].p.score))
    else HighestScore(events[1..], id, start)
  }

  lemma StepTakesHigher(s: State, e: Event, id: AlertId)
    requires Enabled(s, e) && id in s.alerts
    ensures id in Apply(s, e).alerts
    ensures var a, b, touched := s.alerts[id], Apply(s, e).alerts[id], e.Detected? && e.touched == id;
      && SeverityRank(b.severity) ==
           (if touched then Higher(SeverityRank(a.severity), SeverityRank(e.p.severity)) else SeverityRank(a.severity))
      && b.score == if touched then Higher(a.score, e.p.score) else a.score
  {
  }

  /** An alert carries the highest severity and the highest score that were detected for it. */
  lemma {:induction false} HighestIsKept(s: State, events: seq<Event>, id: AlertId)
    requires IsRun(s, events) && id in s.alerts
    ensures id in After(s, events).alerts
    ensures var a, b := s.alerts[id], After(s, events).alerts[id];
      && SeverityRank(b.severity) == HighestRank(events, id, SeverityRank(a.severity))
      && b.score == HighestScore(events, id, a.score)
    ensures SeverityRank(Low) < SeverityRank(Medium) < SeverityRank(High) < SeverityRank(Critical)
    decreases |events|
  {
    if events != [] {
      StepTakesHigher(s, events[0], id);
      hide Apply, Enabled;
      HighestIsKept(Apply(s, events[0]), events[1..], id);
    }
  }

  /** The step sends a notification for the alert: it opens it, or raises its severity, or is one of every
      fifth detection. */
  predicate Notifies(s: State, e: Event, id: AlertId)
    requires Enabled(s, e)
  {
    e.Detected? && e.touched == id
    && (id in s.alerts ==>
          SeverityRank(s.alerts[id].severity) < SeverityRank(e.p.severity)
          || (s.alerts[id].occurrenceCount + 1) % 5 == 0)
  }

  lemma StepSendsExactly(s: State, e: Event, id: AlertId)
    requires Enabled(s, e)
    ensures Deliveries(Apply(s, e).outbox, id) == Deliveries(s.outbox, id) + if Notifies(s, e, id) then 1 else 0
  {
    if e.Detected? { Delivered(s.outbox, e.touched, id); }
    hide Deliveries;
  }

  function Notifications(s: State, events: seq<Event>, id: AlertId): nat
    requires IsRun(s, events)
    decreases |events|
  {
    if events == [] then 0
    else (if Notifies(s, events[0], id) then 1 else 0) + Notifications(Apply(s, events[0]), events[1..], id)
  }

  /** Along a run exactly those notifications are sent for an alert. */
  lemma {:induction false} DeliveriesAreExact(s: State, events: seq<Event>, id: AlertId)
    requires IsRun(s, events)
    ensures Deliveries(After(s, events).outbox, id) == Deliveries(s.outbox, id) + Notifications(s, events, id)
    decreases |events|
  {
    if events != [] {
      StepSendsExactly(s, events[0], id);
      hide Apply, Enabled, Notifies, Deliveries;
      DeliveriesAreExact(Apply(s, events[0]), events[1..], id);
    }
  }
}
