/** The blacklist against the history of a run: which tokens are refused, and why. A token that is not a
    replay can be refused too: the session cap spends a refresh token without handing out a pair, and
    revoking all sessions lists the refresh tokens of open sessions. */
module AuthHistory {
  import opened Auth
  import opened AuthLaws
  import Fraud
  import opened Wrappers

  /** The account of a token's owner is neither blocked nor deactivated. */
  predicate InGoodStanding(s: System, jti: Jti)
    requires UsersKnown(s) && jti in s.issued
  {
    var user := s.fraud.users[s.issued[jti].sub];
    !user.isBlocked && !user.isDeactivated
  }

  /** The event puts the token on the blacklist: it is refreshed, whether a pair comes of it or not, its
      owner logs it out, or it belongs to an open session when all are revoked. Anyone may log out an
      access token. */
  ghost predicate Retires(s: System, e: Event, jti: Jti)
    requires UsersKnown(s)
  {
    match e
    case Refreshes(j, _, _) => j == jti && Usable(s, jti) && InGoodStanding(s, jti)
    case LogsOut(user, refresh, access) =>
      (access == Some(jti) && Verifies(s, jti, Access))
      || (refresh == Some(jti) && Verifies(s, jti, Refresh) && s.issued[jti].sub == user)
    case RevokesAll(user) => jti in TokensOf(OpenSessions(s.sessions, user))
    case _ => false
  }

  ghost predicate Retired(s: System, c: Config, events: seq<Event>, jti: Jti)
    requires UsersKnown(s) && IsRun(s, c, events)
    decreases |events|
  {
    events != []
    && (Retires(s, events[0], jti)
        || (StepKeepsUsers(s, c, events[0]); Retired(Step(s, c, events[0]).0, c, events[1..], jti)))
  }

  // --- the blacklist is the history ------------------------------------------------------------

  lemma StepKeepsIssued(s: System, c: Config, e: Event, jti: Jti)
    requires UsersKnown(s) && Enabled(s, c, e)
    ensures s.now <= Step(s, c, e).0.now
    ensures jti in s.issued ==> jti in Step(s, c, e).0.issued && Step(s, c, e).0.issued[jti] == s.issued[jti]
  {
  }

  lemma {:induction false} RunKeepsIssued(s: System, c: Config, events: seq<Event>, jti: Jti)
    requires UsersKnown(s) && IsRun(s, c, events)
    ensures s.now <= After(s, c, events).now
    ensures jti in s.issued ==>
      jti in After(s, c, events).issued && After(s, c, events).issued[jti] == s.issued[jti]
    decreases |events|
  {
    if events != [] {
      StepKeepsUsers(s, c, events[0]);
      StepKeepsIssued(s, c, events[0], jti);
      RunKeepsIssued(Step(s, c, events[0]).0, c, events[1..], jti);
    }
  }

  /** The tokens of open sessions are known. */
  lemma OpenTokensIssued(s: System, user: Fraud.UserId, kept: Option<nat>)
    requires Linked(s, kept)
    ensures forall j | j in TokensOf(OpenSessions(s.sessions, user)) :: j in s.issued && j.pair in s.sessions
  {
    forall j | j in TokensOf(OpenSessions(s.sessions, user)) ensures j in s.issued && j.pair in s.sessions {
      assert LinkedSession(s, j.pair, kept);
    }
  }

  lemma RefreshRetires(s: System, c: Config, pair: PairId, alert: Fraud.AlertId, j: Jti, jti: Jti)
    requires UsersKnown(s)
    ensures jti in RefreshStep(s, c, j, pair, alert).0.blacklist <==>
      jti in s.blacklist || (j == jti && Usable(s, jti) && InGoodStanding(s, jti))
  {
  }

  lemma LogoutRetires(s: System, user: Fraud.UserId, refresh: Option<Jti>, access: Option<Jti>, jti: Jti)
    ensures jti in LogoutStep(s, user, refresh, access).0.blacklist <==>
      jti in s.blacklist
      || (access == Some(jti) && Verifies(s, jti, Access))
      || (refresh == Some(jti) && Verifies(s, jti, Refresh) && s.issued[jti].sub == user)
  {
  }

  lemma RevokeRetires(s: System, user: Fraud.UserId, jti: Jti, kept: Option<nat>)
    requires Linked(s, kept)
    ensures jti in RevokeAllStep(s, user).blacklist <==>
      jti in s.blacklist || jti in TokensOf(OpenSessions(s.sessions, user))
  {
    OpenTokensIssued(s, user, kept);
  }

  /** Cleaning drops no entry of a token that has not expired. */
  lemma CleaningKeeps(s: System, retention: nat, jti: Jti, kept: Option<nat>)
    requires Linked(s, kept) && Covers(kept, jti.kind) && jti in s.issued && Alive(s.issued[jti], s.now)
    requires kept.Some? ==> retention >= kept.value
    ensures jti in Cleaned(s.blacklist, s.now - retention) <==> jti in s.blacklist
  {
    if jti in s.blacklist { assert Outlasts(s.issued[jti], jti.kind, s.blacklist[jti].expiresAt, kept); }
  }

  /** Of a token that has not expired, a step changes the blacklist entry exactly by retiring it. */
  lemma StepRetires(s: System, c: Config, e: Event, jti: Jti, kept: Option<nat>)
    requires Linked(s, kept) && Enabled(s, c, e) && Covers(kept, jti.kind) && Patient(e, kept)
    requires jti in Step(s, c, e).0.issued && Alive(Step(s, c, e).0.issued[jti], Step(s, c, e).0.now)
    ensures jti in Step(s, c, e).0.blacklist <==> jti in s.blacklist || Retires(s, e, jti)
  {
    hide RefreshStep, LogoutStep, RevokeAllStep, Cleaned, Usable, Verifies, TokensOf, InGoodStanding, LinkedSession;
    match e
    case Refreshes(j, pair, alert) => RefreshRetires(s, c, pair, alert, j, jti);
    case LogsOut(user, refresh, access) => LogoutRetires(s, user, refresh, access, jti);
    case RevokesAll(user) => RevokeRetires(s, user, jti, kept);
    case Cleans(retention) => CleaningKeeps(s, retention, jti, kept);
    case _ =>
  }

  /** In every run: a token that has not expired is on the blacklist exactly if it was there before or the
      run has retired it. For access tokens the cleaner must keep entries long enough. */
  lemma {:induction false} BlacklistIsHistory(s: System, c: Config, events: seq<Event>, jti: Jti, kept: Option<nat>)
    requires Linked(s, kept) && IsRun(s, c, events) && Outlives(c, kept) && Covers(kept, jti.kind)
    requires forall e | e in events :: Patient(e, kept)
    requires var t := After(s, c, events); jti in t.issued && Alive(t.issued[jti], t.now)
    ensures jti in After(s, c, events).blacklist <==> jti in s.blacklist || Retired(s, c, events, jti)
    decreases |events|
  {
    if events != [] {
      var e := events[0];
      var t := Step(s, c, e).0;
      assert e in events && forall d | d in events[1..] :: d in events;
      StepKeepsLinked(s, c, e, kept);
      BlacklistIsHistory(t, c, events[1..], jti, kept);
      StepKeepsIssued(s, c, e, jti);
      RunKeepsIssued(t, c, events[1..], jti);
      if jti in t.issued {
        StepRetires(s, c, e, jti, kept);
      } else {
        UnknownIsNotRetired(s, e, jti, kept);
      }
    }
  }

  lemma UnknownIsNotRetired(s: System, e: Event, jti: Jti, kept: Option<nat>)
    requires Linked(s, kept) && jti !in s.issued
    ensures jti !in s.blacklist && !Retires(s, e, jti)
  {
    if e.RevokesAll? { OpenTokensIssued(s, e.revokedUser, kept); }
  }

  /** From empty tables, a refresh is answered as a reuse exactly for a token that verifies and that the
      run has retired, by a refresh, a log-out or a revocation. */
  lemma ReuseIsHistory(users: map<Fraud.UserId, Fraud.User>, c: Config, events: seq<Event>, jti: Jti, pair: PairId,
                       alert: Fraud.AlertId)
    requires IsRun(Initial(users), c, events)
    ensures var s := After(Initial(users), c, events);
      RefreshStep(s, c, jti, pair, alert).1.ReuseDetected? <==>
        Verifies(s, jti, Refresh) && Retired(Initial(users), c, events, jti)
  {
    var s := After(Initial(users), c, events);
    if Verifies(s, jti, Refresh) { BlacklistIsHistory(Initial(users), c, events, jti, None); }
  }

  /** And an access token is accepted exactly if it verifies and the run has not retired it, and answered as
      revoked exactly if the run has. Blocking its user is no part of the condition. */
  lemma AccessIsHistory(users: map<Fraud.UserId, Fraud.User>, c: Config, events: seq<Event>, jti: Jti, kept: nat)
    requires IsRun(Initial(users), c, events) && Outlives(c, Some(kept))
    requires forall e | e in events :: Patient(e, Some(kept))
    ensures var s := After(Initial(users), c, events);
      var retired := Retired(Initial(users), c, events, jti);
      && (AccessAnswer(s, jti) == Accepted <==> Verifies(s, jti, Access) && !retired)
      && (AccessAnswer(s, jti) == Revoked <==> Verifies(s, jti, Access) && retired)
      && (AccessAnswer(s, jti) == InvalidToken <==> !Verifies(s, jti, Access))
  {
    var s := After(Initial(users), c, events);
    if Verifies(s, jti, Access) { BlacklistIsHistory(Initial(users), c, events, jti, Some(kept)); }
  }

  /** A detected reuse changes the answer to no access token: those of the blocked user are accepted as
      before, and stay so through any later run until they expire or are retired. */
  lemma AccessSurvivesReuse(s: System, c: Config, jti: Jti, pair: PairId, alert: Fraud.AlertId, later: seq<Event>,
                            access: Jti, kept: nat)
    requires Linked(s, Some(kept)) && Outlives(c, Some(kept)) && forall e | e in later :: Patient(e, Some(kept))
    requires Enabled(s, c, Refreshes(jti, pair, alert))
    requires RefreshStep(s, c, jti, pair, alert).1.ReuseDetected?
    requires UsersKnown(RefreshStep(s, c, jti, pair, alert).0)
             && IsRun(RefreshStep(s, c, jti, pair, alert).0, c, later)
    ensures AccessAnswer(RefreshStep(s, c, jti, pair, alert).0, access) == AccessAnswer(s, access)
    ensures AccessAnswer(s, access).Accepted? ==>
      var t := RefreshStep(s, c, jti, pair, alert).0;
      var u := After(t, c, later);
      AccessAnswer(u, access).Accepted? <==> Alive(s.issued[access], u.now) && !Retired(t, c, later, access)
  {
    var t := RefreshStep(s, c, jti, pair, alert).0;
    StepKeepsLinked(s, c, Refreshes(jti, pair, alert), Some(kept));
    if AccessAnswer(s, access).Accepted? {
      RunKeepsIssued(t, c, later, access);
      if Alive(s.issued[access], After(t, c, later).now) {
        BlacklistIsHistory(t, c, later, access, Some(kept));
      }
    }
  }

  // --- what a pair, a log-out, a reuse and a revocation are good for -----------------------------

  /** Of a token that is known and not listed, a later run tells whether it still is not. */
  lemma NotListedStays(s: System, c: Config, later: seq<Event>, jti: Jti, kept: Option<nat>)
    requires Linked(s, kept) && IsRun(s, c, later) && Outlives(c, kept) && Covers(kept, jti.kind)
    requires forall e | e in later :: Patient(e, kept)
    requires jti in s.issued && jti !in s.blacklist
    ensures var t := After(s, c, later);
      && jti in t.issued && t.issued[jti] == s.issued[jti]
      && (Alive(s.issued[jti], t.now) ==> (jti !in t.blacklist <==> !Retired(s, c, later, jti)))
  {
    RunKeepsIssued(s, c, later, jti);
    if Alive(s.issued[jti], After(s, c, later).now) { BlacklistIsHistory(s, c, later, jti, kept); }
  }

  /** The tokens of a pair are good, along any later run, exactly until their own expiry or until the run
      retires them. */
  lemma PairLives(s: System, c: Config, e: Event, pair: PairId, later: seq<Event>, kept: nat)
    requires Linked(s, Some(kept)) && Enabled(s, c, e) && Outlives(c, Some(kept))
    requires forall d | d in later :: Patient(d, Some(kept))
    requires Step(s, c, e).1 == Pair(pair) && UsersKnown(Step(s, c, e).0) && IsRun(Step(s, c, e).0, c, later)
    ensures var t, access, refresh := Step(s, c, e).0, Jti(pair, Access), Jti(pair, Refresh);
      var u := After(t, c, later);
      && (AccessAnswer(u, access).Accepted? <==>
           u.now / 1000 < s.now / 1000 + c.accessTtl && !Retired(t, c, later, access))
      && (Usable(u, refresh) <==> u.now / 1000 < s.now / 1000 + c.refreshTtl && !Retired(t, c, later, refresh))
  {
    var t := Step(s, c, e).0;
    NewPair(s, c, e, pair, Some(kept));
    StepKeepsLinked(s, c, e, Some(kept));
    NotListedStays(t, c, later, Jti(pair, Access), Some(kept));
    NotListedStays(t, c, later, Jti(pair, Refresh), Some(kept));
  }

  lemma NewPair(s: System, c: Config, e: Event, pair: PairId, kept: Option<nat>)
    requires Linked(s, kept) && Enabled(s, c, e) && Step(s, c, e).1 == Pair(pair)
    ensures var t, access, refresh := Step(s, c, e).0, Jti(pair, Access), Jti(pair, Refresh);
      && access in t.issued && access !in t.blacklist && t.issued[access].exp == s.now / 1000 + c.accessTtl
      && refresh in t.issued && refresh !in t.blacklist && t.issued[refresh].exp == s.now / 1000 + c.refreshTtl
  {
  }

  /** A log-out with both tokens is final: no later run accepts either of them again. */
  lemma LogoutIsFinal(s: System, c: Config, user: Fraud.UserId, refresh: Jti, access: Jti, later: seq<Event>, kept: nat)
    requires Linked(s, Some(kept)) && Outlives(c, Some(kept)) && forall e | e in later :: Patient(e, Some(kept))
    requires access in s.issued && LogoutStep(s, user, Some(refresh), Some(access)).1.LoggedOut?
    requires UsersKnown(LogoutStep(s, user, Some(refresh), Some(access)).0)
             && IsRun(LogoutStep(s, user, Some(refresh), Some(access)).0, c, later)
    ensures var u := After(LogoutStep(s, user, Some(refresh), Some(access)).0, c, later);
      refresh in s.issued && s.issued[refresh].sub == user
      && !Usable(u, refresh) && !AccessAnswer(u, access).Accepted?
  {
    var e := LogsOut(user, Some(refresh), Some(access));
    var t := LogoutStep(s, user, Some(refresh), Some(access)).0;
    StepKeepsLinked(s, c, e, Some(kept));
    RunKeepsIssued(t, c, later, refresh);
    RunKeepsIssued(t, c, later, access);
    var u := After(t, c, later);
    if Verifies(u, refresh, Refresh) { BlacklistIsHistory(t, c, later, refresh, Some(kept)); }
    if Verifies(u, access, Access) { BlacklistIsHistory(t, c, later, access, Some(kept)); }
  }

  predicate Marked(s: System, jti: Jti) { jti in s.blacklist && s.blacklist[jti].reusedAt.Some? }

  lemma StepKeepsMark(s: System, c: Config, e: Event, jti: Jti)
    requires Linked(s, None) && Enabled(s, c, e) && Marked(s, jti) && jti.kind.Refresh?
    requires Alive(Step(s, c, e).0.issued[jti], Step(s, c, e).0.now)
    ensures Marked(Step(s, c, e).0, jti)
  {
    if e.Cleans? { CleaningKeeps(s, e.retention, jti, None); }
  }

  /** The mark of a detected reuse stays on record, along any later run, until the token expires. */
  lemma {:induction false} ReuseMarkStays(s: System, c: Config, events: seq<Event>, jti: Jti)
    requires Linked(s, None) && IsRun(s, c, events) && Marked(s, jti) && jti.kind.Refresh?
    requires Alive(s.issued[jti], After(s, c, events).now)
    ensures Marked(After(s, c, events), jti)
    decreases |events|
  {
    if events != [] {
      var e := events[0];
      var t := Step(s, c, e).0;
      StepKeepsLinked(s, c, e, None);
      StepKeepsIssued(s, c, e, jti);
      RunKeepsIssued(t, c, events[1..], jti);
      StepKeepsMark(s, c, e, jti);
      ReuseMarkStays(t, c, events[1..], jti);
    }
  }

  /** The event hands the token in. */
  predicate Presents(e: Event, jti: Jti) {
    (e.Refreshes? && e.jti == jti) || (e.LogsOut? && (e.refreshToken == Some(jti) || e.accessToken == Some(jti)))
  }

  predicate RevokedSession(s: System, p: PairId) { p in s.sessions && s.sessions[p].revoked }

  /** A step lists a token only by retiring it, and retires one of a revoked session only if it is handed
      in: revoking all sessions passes over those revoked already. */
  lemma RevokedSessionStep(s: System, c: Config, e: Event, jti: Jti)
    requires UsersKnown(s) && Enabled(s, c, e) && RevokedSession(s, jti.pair)
    ensures RevokedSession(Step(s, c, e).0, jti.pair)
    ensures !Presents(e, jti) && jti !in s.blacklist ==> jti !in Step(s, c, e).0.blacklist
  {
  }

  /** Revoking one session ends none of its tokens: nobody's token gets another answer by it, and along any
      later run in which they are not handed in for a refresh or a log-out, those of the session stay good
      until they expire, even if all sessions of the user are revoked in between. */
  lemma RevokingOneSession(s: System, c: Config, session: PairId, later: seq<Event>, jti: Jti)
    requires UsersKnown(s) && session in s.sessions
    requires UsersKnown(Step(s, c, RevokesOne(session)).0) && IsRun(Step(s, c, RevokesOne(session)).0, c, later)
    requires jti.pair == session && forall e | e in later :: !Presents(e, jti)
    ensures var t := Step(s, c, RevokesOne(session)).0;
      && (forall j :: AccessAnswer(t, j) == AccessAnswer(s, j) && Usable(t, j) == Usable(s, j))
      && (AccessAnswer(s, jti).Accepted? ==>
           (AccessAnswer(After(t, c, later), jti).Accepted? <==> Alive(s.issued[jti], After(t, c, later).now)))
      && (Usable(s, jti) ==>
           (Usable(After(t, c, later), jti) <==> Alive(s.issued[jti], After(t, c, later).now)))
  {
    var t := Step(s, c, RevokesOne(session)).0;
    RunKeepsIssued(t, c, later, jti);
    if jti !in s.blacklist { RevokedSessionRun(t, c, later, jti); }
  }

  lemma {:induction false} RevokedSessionRun(s: System, c: Config, events: seq<Event>, jti: Jti)
    requires UsersKnown(s) && IsRun(s, c, events) && RevokedSession(s, jti.pair) && jti !in s.blacklist
    requires forall e | e in events :: !Presents(e, jti)
    ensures jti !in After(s, c, events).blacklist
    decreases |events|
  {
    if events != [] {
      assert events[0] in events && forall d | d in events[1..] :: d in events;
      StepKeepsUsers(s, c, events[0]);
      RevokedSessionStep(s, c, events[0], jti);
      RevokedSessionRun(Step(s, c, events[0]).0, c, events[1..], jti);
    }
  }

  // --- the session cap -------------------------------------------------------------------------

  /** A refresh hands out a pair exactly for a usable token of an account in good standing that has room
      for a session. */
  lemma RefreshSucceedsExactly(s: System, c: Config, jti: Jti, pair: PairId, alert: Fraud.AlertId)
    requires UsersKnown(s)
    ensures RefreshStep(s, c, jti, pair, alert).1.Pair? <==>
      Usable(s, jti) && InGoodStanding(s, jti)
      && ActiveSessions(s.sessions, s.issued[jti].sub, s.now) < c.maxSessions
  {
  }

  /** A refresh of a usable token that hands out nothing still spends the token exactly at the session cap;
      presenting it again is then a reuse, and otherwise is not. */
  lemma RefreshAtCapSpendsToken(s: System, c: Config, jti: Jti, pair: PairId, alert: Fraud.AlertId,
                                pair': PairId, alert': Fraud.AlertId)
    requires UsersKnown(s) && Usable(s, jti) && !RefreshStep(s, c, jti, pair, alert).1.Pair?
    ensures var (t, a) := RefreshStep(s, c, jti, pair, alert);
      && t.issued == s.issued && t.sessions == s.sessions && UsersKnown(t)
      && (Spent(t, jti) <==> a.SessionLimit?)
      && (Spent(t, jti) <==> RefreshStep(t, c, jti, pair', alert').1.ReuseDetected?)
      && (a.SessionLimit? <==>
           InGoodStanding(s, jti) && ActiveSessions(s.sessions, s.issued[jti].sub, s.now) >= c.maxSessions)
  {
  }

  /** After a user's sessions are all revoked, a refresh is a reuse exactly if it already was one or the
      token belonged to an open session. */
  lemma RevokedRefreshIsReuse(s: System, c: Config, user: Fraud.UserId, jti: Jti, pair: PairId, alert: Fraud.AlertId)
    requires Linked(s, None) && Verifies(s, jti, Refresh)
    ensures var t := RevokeAllStep(s, user);
      UsersKnown(t) &&
      (RefreshStep(t, c, jti, pair, alert).1.ReuseDetected? <==>
        jti in s.blacklist || jti.pair in OpenSessions(s.sessions, user))
  {
    RevokeRetires(s, user, jti, None);
    assert jti == Jti(jti.pair, Refresh);
  }

  /** The step neither revokes an active session of the user nor lets one expire. */
  ghost predicate LeavesSessions(s: System, e: Event, user: Fraud.UserId) {
    match e
    case RevokesAll(u) => u != user
    case RevokesOne(p) => p !in Active(s.sessions, user, s.now)
    case Tick(time) => forall p | p in Active(s.sessions, user, s.now) :: time < s.sessions[p].expiresAt
    case _ => true
  }

  /** A pair handed out to the user by the step. */
  ghost function PairsInStep(s: System, c: Config, e: Event, user: Fraud.UserId): nat
    requires UsersKnown(s) && Enabled(s, c, e)
  {
    var (t, a) := Step(s, c, e);
    if a.Pair? && a.pair in t.sessions && t.sessions[a.pair].user == user then 1 else 0
  }

  ghost predicate LeavesSessionsAlong(s: System, c: Config, events: seq<Event>, user: Fraud.UserId)
    requires UsersKnown(s) && IsRun(s, c, events)
    decreases |events|
  {
    events == []
    || (LeavesSessions(s, events[0], user)
        && (StepKeepsUsers(s, c, events[0]); LeavesSessionsAlong(Step(s, c, events[0]).0, c, events[1..], user)))
  }

  ghost function PairsFor(s: System, c: Config, events: seq<Event>, user: Fraud.UserId): nat
    requires UsersKnown(s) && IsRun(s, c, events)
    decreases |events|
  {
    if events == [] then 0
    else
      StepKeepsUsers(s, c, events[0]);
      PairsInStep(s, c, events[0], user) + PairsFor(Step(s, c, events[0]).0, c, events[1..], user)
  }

  /** A new pair's session is active, and no other session is touched. */
  lemma PairAddsSession(s: System, c: Config, owner: Fraud.UserId, family: Family, pair: PairId, user: Fraud.UserId)
    requires Unused(s, pair) && c.refreshTtl > 0 && IssuePair(s, c, owner, family, pair).1.Pair?
    ensures var t := IssuePair(s, c, owner, family, pair).0;
      ActiveSessions(t.sessions, user, t.now) ==
        ActiveSessions(s.sessions, user, s.now) + if owner == user then 1 else 0
  {
    var t := IssuePair(s, c, owner, family, pair).0;
    var before, after := Active(s.sessions, user, s.now), Active(t.sessions, user, t.now);
    assert after == if owner == user then before + {pair} else before;
  }

  /** A step that hands out no pair leaves the active sessions alone. */
  lemma NoPairNoSession(s: System, c: Config, e: Event, user: Fraud.UserId)
    requires UsersKnown(s) && Enabled(s, c, e) && LeavesSessions(s, e, user) && !Step(s, c, e).1.Pair?
    ensures Active(Step(s, c, e).0.sessions, user, Step(s, c, e).0.now) == Active(s.sessions, user, s.now)
  {
    var t := Step(s, c, e).0;
    if e.RevokesAll? {
      assert forall p | p in s.sessions && s.sessions[p].user == user :: t.sessions[p] == s.sessions[p];
    } else if !e.RevokesOne? && !e.Tick? {
      assert t.sessions == s.sessions && t.now == s.now;
    }
  }

  /** Each pair is one session more: a refresh does not close the session of the token it replaces. */
  lemma StepCountsSessions(s: System, c: Config, e: Event, user: Fraud.UserId)
    requires UsersKnown(s) && Enabled(s, c, e) && LeavesSessions(s, e, user) && c.refreshTtl > 0
    ensures ActiveSessions(Step(s, c, e).0.sessions, user, Step(s, c, e).0.now) ==
      ActiveSessions(s.sessions, user, s.now) + PairsInStep(s, c, e, user)
  {
    if !Step(s, c, e).1.Pair? {
      NoPairNoSession(s, c, e, user);
    } else {
      hide Active;
      match e {
        case Login(owner, family, pair) => PairAddsSession(s, c, owner, family, pair, user);
        case Refreshes(jti, pair, alert) =>
          var t := s.issued[jti];
          PairAddsSession(s.(blacklist := AddEntry(s.blacklist, jti, t, t.sub)), c, t.sub, t.family, pair, user);
        case _ =>
      }
    }
  }

  lemma {:induction false} SessionsAddUp(s: System, c: Config, events: seq<Event>, user: Fraud.UserId)
    requires UsersKnown(s) && IsRun(s, c, events) && LeavesSessionsAlong(s, c, events, user) && c.refreshTtl > 0
    ensures var t := After(s, c, events);
      ActiveSessions(t.sessions, user, t.now) == ActiveSessions(s.sessions, user, s.now) + PairsFor(s, c, events, user)
    decreases |events|
  {
    if events != [] {
      StepKeepsUsers(s, c, events[0]);
      StepCountsSessions(s, c, events[0], user);
      SessionsAddUp(Step(s, c, events[0]).0, c, events[1..], user);
    }
  }

  /** In every run from empty tables in which no session of the user ends, a usable refresh token of an
      account in good standing is good for a pair exactly while fewer than `maxSessions` pairs have been
      handed out to the user. So after one log-in the `maxSessions`-th refresh always fails. */
  lemma RefreshesRunOut(users: map<Fraud.UserId, Fraud.User>, c: Config, events: seq<Event>, jti: Jti, pair: PairId,
                        alert: Fraud.AlertId)
    requires IsRun(Initial(users), c, events) && c.refreshTtl > 0
    requires var s := After(Initial(users), c, events);
      Usable(s, jti) && InGoodStanding(s, jti)
      && LeavesSessionsAlong(Initial(users), c, events, s.issued[jti].sub)
    ensures var s := After(Initial(users), c, events);
      RefreshStep(s, c, jti, pair, alert).1.Pair? <==>
        PairsFor(Initial(users), c, events, s.issued[jti].sub) < c.maxSessions
  {
    var s0 := Initial(users);
    var user := After(s0, c, events).issued[jti].sub;
    assert Active(s0.sessions, user, s0.now) == {};
    SessionsAddUp(s0, c, events, user);
  }

  // --- two runs that end in a reuse without a replay -------------------------------------------

  /** The tables after a log-in at time 0. */
  function LoggedIn(c: Config, user: Fraud.UserId, family: Family, pair: PairId): System {
    System(0, map[Jti(pair, Refresh) := Token(user, family, c.refreshTtl),
                  Jti(pair, Access) := Token(user, family, c.accessTtl)],
           map[], map[pair := Session(user, c.refreshTtl * 1000, false)],
           Fraud.State(map[user := Fraud.User(false, false)], map[], []))
  }

  lemma LoginFromEmpty(c: Config, user: Fraud.UserId, family: Family, pair: PairId)
    requires c.maxSessions > 0
    ensures var s, e := Initial(map[user := Fraud.User(false, false)]), Login(user, family, pair);
      Enabled(s, c, e) && Step(s, c, e) == (LoggedIn(c, user, family, pair), Pair(pair))
  {
    var s := Initial(map[user := Fraud.User(false, false)]);
    assert Active(s.sessions, user, s.now) == {};
  }

  lemma RevokedAfterLogin(c: Config, user: Fraud.UserId, family: Family, pair: PairId)
    ensures var s := LoggedIn(c, user, family, pair);
      var t := RevokeAllStep(s, user);
      && t.now == s.now && t.issued == s.issued && t.fraud == s.fraud && t.sessions.Keys == s.sessions.Keys
      && Jti(pair, Refresh) in t.blacklist
  {
    var s := LoggedIn(c, user, family, pair);
    assert OpenSessions(s.sessions, user) == {pair};
    assert Jti(pair, Refresh) in TokensOf({pair});
  }

  /** The first reuse of all opens an alert and blocks the user. */
  lemma FirstReuse(s: System, c: Config, user: Fraud.UserId, jti: Jti, next: PairId)
    requires UsersKnown(s) && Unused(s, next) && s.fraud.alerts == map[]
    requires Verifies(s, jti, Refresh) && jti in s.blacklist && s.issued[jti].sub == user
    ensures var e := Refreshes(jti, next, 0);
      Enabled(s, c, e) && Step(s, c, e).1 == ReuseDetected && BlockedUser(Step(s, c, e).0, user)
  {
  }

  /** With room for one session, a log-in and its first refresh: the refresh is refused and spends the
      token, and trying once more blocks the user. */
  lemma FirstRefreshBlocksUser(c: Config, user: Fraud.UserId, family: Family, pair: PairId, next: PairId)
    requires c.maxSessions == 1 && c.refreshTtl > 0 && pair != next
    ensures var s := Initial(map[user := Fraud.User(false, false)]);
      var refresh := Refreshes(Jti(pair, Refresh), next, 0);
      var events := [Login(user, family, pair), refresh, refresh];
      && IsRun(s, c, events)
      && Answers(s, c, events) == [Pair(pair), SessionLimit, ReuseDetected]
      && BlockedUser(After(s, c, events), user)
  {
    var s, e := Initial(map[user := Fraud.User(false, false)]), Login(user, family, pair);
    var refresh := Refreshes(Jti(pair, Refresh), next, 0);
    LoginFromEmpty(c, user, family, pair);
    var s1 := LoggedIn(c, user, family, pair);
    assert Active(s1.sessions, user, s1.now) == {pair};
    assert Enabled(s1, c, refresh);
    var s2 := Step(s1, c, refresh).0;
    assert Step(s1, c, refresh).1 == SessionLimit;
    FirstReuse(s2, c, user, Jti(pair, Refresh), next);
    ThreeSteps(s, c, e, refresh, refresh);
  }

  lemma RevokedThenRefreshed(c: Config, user: Fraud.UserId, family: Family, pair: PairId, next: PairId)
    requires c.refreshTtl > 0 && pair != next
    ensures var s, e := LoggedIn(c, user, family, pair), Refreshes(Jti(pair, Refresh), next, 0);
      var t := Step(s, c, RevokesAll(user));
      && UsersKnown(s) && Enabled(s, c, RevokesAll(user)) && t.1 == LoggedOut && UsersKnown(t.0)
      && Enabled(t.0, c, e) && Step(t.0, c, e).1 == ReuseDetected && BlockedUser(Step(t.0, c, e).0, user)
  {
    RevokedAfterLogin(c, user, family, pair);
    var t := RevokeAllStep(LoggedIn(c, user, family, pair), user);
    hide RevokeAllStep, BlockedUser, RefreshStep;
    FirstReuse(t, c, user, Jti(pair, Refresh), next);
  }

  /** A log-in, all sessions revoked, and a refresh: the refresh counts as a reuse and blocks the user. */
  lemma RefreshAfterRevocationBlocksUser(c: Config, user: Fraud.UserId, family: Family, pair: PairId, next: PairId)
    requires c.maxSessions > 0 && c.refreshTtl > 0 && pair != next
    ensures var s := Initial(map[user := Fraud.User(false, false)]);
      var events := [Login(user, family, pair), RevokesAll(user), Refreshes(Jti(pair, Refresh), next, 0)];
      && IsRun(s, c, events)
      && Answers(s, c, events) == [Pair(pair), LoggedOut, ReuseDetected]
      && BlockedUser(After(s, c, events), user)
  {
    var s, e := Initial(map[user := Fraud.User(false, false)]), Login(user, family, pair);
    var refresh := Refreshes(Jti(pair, Refresh), next, 0);
    LoginFromEmpty(c, user, family, pair);
    var s1 := LoggedIn(c, user, family, pair);
    RevokedThenRefreshed(c, user, family, pair, next);
    hide Step, Enabled, Initial, LoggedIn, BlockedUser;
    ThreeSteps(s, c, e, RevokesAll(user), refresh);
  }

  lemma ThreeSteps(s: System, c: Config, e1: Event, e2: Event, e3: Event)
    requires UsersKnown(s) && Enabled(s, c, e1) && !e1.Cleans? && !e2.Cleans? && !e3.Cleans?
    requires UsersKnown(Step(s, c, e1).0) && Enabled(Step(s, c, e1).0, c, e2)
    requires UsersKnown(Step(Step(s, c, e1).0, c, e2).0) && Enabled(Step(Step(s, c, e1).0, c, e2).0, c, e3)
    ensures var t1 := Step(s, c, e1); var t2 := Step(t1.0, c, e2); var t3 := Step(t2.0, c, e3);
      var events := [e1, e2, e3];
      IsRun(s, c, events) && Answers(s, c, events) == [t1.1, t2.1, t3.1] && After(s, c, events) == t3.0
  {
    hide Step, Enabled;
    var t1 := Step(s, c, e1).0;
    var t2 := Step(t1, c, e2).0;
    StepKeepsUsers(t2, c, e3);
    var t3 := Step(t2, c, e3).0;
    assert [e1, e2, e3][1..] == [e2, e3] && [e2, e3][1..] == [e3] && [e3][1..] == [];
    assert IsRun(t3, c, []) && Answers(t3, c, []) == [] && After(t3, c, []) == t3;
    assert IsRun(t2, c, [e3]) && Answers(t2, c, [e3]) == [Step(t2, c, e3).1] && After(t2, c, [e3]) == t3;
    assert IsRun(t1, c, [e2, e3]) && Answers(t1, c, [e2, e3]) == [Step(t1, c, e2).1, Step(t2, c, e3).1];
    assert After(t1, c, [e2, e3]) == t3;
  }
}
