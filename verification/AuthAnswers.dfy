/** What each answer of the token handlers means, in one state and along runs, and what the tables say
    afterwards. */
module AuthAnswers {
  import opened Auth
  import opened AuthHistory
  import opened AuthLaws
  import Fraud
  import FraudLaws
  import opened Wrappers

  function Owner(s: System, jti: Jti): Fraud.User
    requires UsersKnown(s) && jti in s.issued
  {
    s.fraud.users[s.issued[jti].sub]
  }

  // --- refreshing ------------------------------------------------------------------------------

  /** When each answer is given. A blocked owner is told so, deactivated or not. */
  lemma RefreshAnswers(s: System, c: Config, jti: Jti, pair: PairId, alert: Fraud.AlertId)
    requires UsersKnown(s)
    ensures var a := RefreshStep(s, c, jti, pair, alert).1;
      && (a == InvalidToken <==> !Verifies(s, jti, Refresh))
      && (a == ReuseDetected <==> Verifies(s, jti, Refresh) && jti in s.blacklist)
      && (a == Blocked <==> Usable(s, jti) && Owner(s, jti).isBlocked)
      && (a == Deactivated <==> Usable(s, jti) && Owner(s, jti).isDeactivated && !Owner(s, jti).isBlocked)
      && (a == SessionLimit <==>
            && Usable(s, jti) && InGoodStanding(s, jti)
            && ActiveSessions(s.sessions, s.issued[jti].sub, s.now) >= c.maxSessions)
      && (a == Pair(pair) <==>
            && Usable(s, jti) && InGoodStanding(s, jti)
            && ActiveSessions(s.sessions, s.issued[jti].sub, s.now) < c.maxSessions)
      && (a in {InvalidToken, Blocked, Deactivated} ==> RefreshStep(s, c, jti, pair, alert).0 == s)
  {
  }

  /** A new pair is its presenter's: of the same user and family, with a session that lives as long as the
      refresh token. The presented token is listed under its user until it expires; nothing else changes. */
  lemma RefreshHandsOver(s: System, c: Config, jti: Jti, pair: PairId, alert: Fraud.AlertId)
    requires UsersKnown(s) && Unused(s, pair) && RefreshStep(s, c, jti, pair, alert).1.Pair?
    ensures var t, was := RefreshStep(s, c, jti, pair, alert).0, s.issued[jti];
      var a, r := Jti(pair, Access), Jti(pair, Refresh);
      && t.issued.Keys == s.issued.Keys + {a, r} && (forall j | j in s.issued :: t.issued[j] == s.issued[j])
      && t.issued[a] == Token(was.sub, was.family, s.now / 1000 + c.accessTtl)
      && t.issued[r] == Token(was.sub, was.family, s.now / 1000 + c.refreshTtl)
      && t.sessions == s.sessions[pair := Session(was.sub, s.now + c.refreshTtl * 1000, false)]
      && t.blacklist.Keys == s.blacklist.Keys + {jti}
      && (forall j | j in s.blacklist :: t.blacklist[j] == s.blacklist[j])
      && t.blacklist[jti] == Entry(was.exp * 1000, was.sub, Some(was.family), None)
      && t.fraud == s.fraud && t.now == s.now
  {
  }

  /** A detected reuse marks the entry with the time, and reports the user and the session to the fraud
      service; no token, session or other entry changes. */
  lemma ReuseRecords(s: System, c: Config, jti: Jti, pair: PairId, alert: Fraud.AlertId)
    requires UsersKnown(s) && Enabled(s, c, Refreshes(jti, pair, alert))
    requires RefreshStep(s, c, jti, pair, alert).1.ReuseDetected?
    ensures var t := RefreshStep(s, c, jti, pair, alert).0;
      && t.blacklist == s.blacklist[jti := s.blacklist[jti].(reusedAt := Some(s.now))]
      && t.issued == s.issued && t.sessions == s.sessions && t.now == s.now
      && alert in t.fraud.alerts
      && t.fraud.alerts[alert].pattern == Fraud.TokenReuse && t.fraud.alerts[alert].severity == Fraud.Critical
      && t.fraud.alerts[alert].subject.userId == Some(s.issued[jti].sub)
      && (jti.pair in s.sessions ==> t.fraud.alerts[alert].subject.sessionId == Some(jti.pair))
  {
    FraudLaws.ReuseRecords(s.fraud, s.issued[jti].sub, if jti.pair in s.sessions then Some(jti.pair) else None,
                           s.now, alert);
  }

  /** Checking the signature and the expiry of a token is checking that it was handed out with the kind and has
      not expired. */
  lemma SignatureSays(service: Service, jti: Jti, kind: Kind, payload: Option<Token>, now: int)
    requires service.SignatureCheck(jti, kind, payload)
    ensures Verifies(service.Tables(now), jti, kind) <==> payload.Some? && Alive(payload.value, now)
    ensures payload.Some? ==> jti in service.issued && payload.value == service.issued[jti]
  {
  }

  // --- sessions --------------------------------------------------------------

  /** A session counts for its user unless it is revoked, and as time passes until its end and no longer. */
  lemma TimeEndsSessions(s: System, c: Config, time: int, user: Fraud.UserId, p: PairId)
    requires UsersKnown(s) && Enabled(s, c, Tick(time)) && p in s.sessions
    ensures var t, session := Step(s, c, Tick(time)).0, s.sessions[p];
      && (p in Active(s.sessions, user, s.now) <==>
            session.user == user && !session.revoked && s.now < session.expiresAt)
      && (p in Active(t.sessions, user, t.now) <==>
            session.user == user && !session.revoked && time < session.expiresAt)
  {
  }

  // --- logging out and revoking ----------------------------------------------------------------

  /** When each answer to a log-out is given, and what it lists: the access token under the caller, the
      refresh token under its user if that is the caller, each until it expires. */
  lemma LogoutAnswers(s: System, user: Fraud.UserId, refresh: Option<Jti>, access: Option<Jti>)
    ensures var (t, a) := LogoutStep(s, user, refresh, access);
      && (a == InvalidToken <==> refresh.Some? && !Verifies(s, refresh.value, Refresh))
      && (a == NotOwner <==>
            && refresh.Some? && Verifies(s, refresh.value, Refresh) && s.issued[refresh.value].sub != user)
      && (a == LoggedOut <==> (refresh.Some? ==>
            Verifies(s, refresh.value, Refresh) && s.issued[refresh.value].sub == user))
      && t.(blacklist := s.blacklist) == s
  {
  }

  lemma LogoutLists(s: System, user: Fraud.UserId, refresh: Option<Jti>, access: Option<Jti>, j: Jti)
    ensures var t := LogoutStep(s, user, refresh, access).0.blacklist;
      var given := (access == Some(j) && Verifies(s, j, Access))
                   || (refresh == Some(j) && Verifies(s, j, Refresh) && s.issued[j].sub == user);
      && (j in t <==> j in s.blacklist || given)
      && (given ==> t[j] == Entry(s.issued[j].exp * 1000, user, Some(s.issued[j].family),
                                  if j in s.blacklist then s.blacklist[j].reusedAt else None))
      && (!given && j in t ==> t[j] == s.blacklist[j])
  {
  }

  /** Revoking all sessions of a user revokes those and no other, lists both tokens of those that were open
      until the session's end, and leaves entries that were there. */
  lemma RevocationRecords(s: System, user: Fraud.UserId, p: PairId, kind: Kind)
    requires p in s.sessions
    ensures var t, was, j := RevokeAllStep(s, user), s.sessions[p], Jti(p, kind);
      && t.sessions.Keys == s.sessions.Keys && t.sessions[p] == was.(revoked := was.revoked || was.user == user)
      && (j in t.blacklist <==> j in s.blacklist || (was.user == user && !was.revoked))
      && (j in s.blacklist ==> t.blacklist[j] == s.blacklist[j])
      && (j in t.blacklist && j !in s.blacklist ==> t.blacklist[j] == Entry(was.expiresAt, user, None, None))
      && t.issued == s.issued && t.fraud == s.fraud && t.now == s.now
  {
    assert p in OpenSessions(s.sessions, user) <==> s.sessions[p].user == user && !s.sessions[p].revoked;
  }

  // --- the standing of an account along a run --------------------------------------------------

  /** The step blocks the user: the fraud service does, or a detected reuse. */
  ghost predicate Blocks(s: System, c: Config, e: Event, user: Fraud.UserId)
    requires UsersKnown(s) && Enabled(s, c, e)
  {
    match e
    case FraudEvent(f) => FraudLaws.Blocks(s.fraud, f, user)
    case Refreshes(jti, _, alert) =>
      Verifies(s, jti, Refresh) && jti in s.blacklist && s.issued[jti].sub == user
      && (alert in s.fraud.alerts ==>
            !s.fraud.alerts[alert].autoBlocked && !FraudLaws.IsSystem(s.fraud.alerts[alert].subject.userId))
    case _ => false
  }

  function Unblocks(user: Fraud.UserId): Event { FraudEvent(Fraud.AdminSets(user, false)) }

  lemma StepKeepsAccounts(s: System, c: Config, e: Event)
    requires UsersKnown(s) && Enabled(s, c, e)
    ensures Step(s, c, e).0.fraud.users.Keys == s.fraud.users.Keys
  {
  }

  lemma StepSetsStanding(s: System, c: Config, e: Event, user: Fraud.UserId)
    requires UsersKnown(s) && Enabled(s, c, e) && user in s.fraud.users
    ensures var t := Step(s, c, e).0;
      && user in t.fraud.users
      && (t.fraud.users[user].isBlocked <==>
            Blocks(s, c, e, user) || (s.fraud.users[user].isBlocked && e != Unblocks(user)))
      && t.fraud.users[user].isDeactivated ==
           if e.SetsDeactivated? && e.account == user then e.deactivated else s.fraud.users[user].isDeactivated
  {
    match e {
      case FraudEvent(f) => FraudLaws.StepBlocksExactly(s.fraud, f, user);
      case Refreshes(jti, _, alert) =>
        if Verifies(s, jti, Refresh) && jti in s.blacklist {
          FraudLaws.StepBlocksExactly(s.fraud, Fraud.Detected(ReuseOf(s, jti), s.now, alert), user);
        }
      case _ =>
    }
  }

  /** Some step of the run blocks the user, and no later one unblocks it. */
  ghost predicate BlockedAlong(s: System, c: Config, events: seq<Event>, user: Fraud.UserId)
    requires UsersKnown(s) && IsRun(s, c, events)
    decreases |events|
  {
    events != []
    && ((Blocks(s, c, events[0], user) && Unblocks(user) !in events[1..])
        || (StepKeepsUsers(s, c, events[0]); BlockedAlong(Step(s, c, events[0]).0, c, events[1..], user)))
  }

  /** The last setting of `isDeactivated` in the run. */
  function LastSetting(events: seq<Event>, user: Fraud.UserId): Option<bool> {
    if events == [] then None
    else
      var e := events[|events| - 1];
      if e.SetsDeactivated? && e.account == user then Some(e.deactivated)
      else LastSetting(events[..|events| - 1], user)
  }

  ghost predicate IsBlockedAfter(s: System, c: Config, events: seq<Event>, user: Fraud.UserId)
    requires UsersKnown(s) && IsRun(s, c, events)
  {
    BlockedAlong(s, c, events, user)
    || (user in s.fraud.users && s.fraud.users[user].isBlocked && Unblocks(user) !in events)
  }

  predicate IsDeactivatedAfter(s: System, events: seq<Event>, user: Fraud.UserId) {
    var last := LastSetting(events, user);
    if last.Some? then last.value else user in s.fraud.users && s.fraud.users[user].isDeactivated
  }

  lemma {:induction false} SettingFirst(e: Event, rest: seq<Event>, user: Fraud.UserId)
    ensures LastSetting([e] + rest, user) ==
      if LastSetting(rest, user).Some? then LastSetting(rest, user)
      else if e.SetsDeactivated? && e.account == user then Some(e.deactivated) else None
  {
    var events := [e] + rest;
    if rest != [] {
      assert events[..|events| - 1] == [e] + rest[..|rest| - 1] && events[|events| - 1] == rest[|rest| - 1];
      SettingFirst(e, rest[..|rest| - 1], user);
    } else {
      assert events[..0] == [];
    }
  }

  /** In every run the standing of an account is what the last of its events made it. */
  lemma {:induction false} StandingIsHistory(s: System, c: Config, events: seq<Event>, user: Fraud.UserId)
    requires UsersKnown(s) && IsRun(s, c, events) && user in After(s, c, events).fraud.users
    ensures user in s.fraud.users
    ensures var t := After(s, c, events);
      && (t.fraud.users[user].isBlocked <==> IsBlockedAfter(s, c, events, user))
      && (t.fraud.users[user].isDeactivated <==> IsDeactivatedAfter(s, events, user))
    decreases |events|
  {
    if events != [] {
      var e, rest := events[0], events[1..];
      assert events == [e] + rest;
      StepKeepsUsers(s, c, e);
      SettingFirst(e, rest, user);
      StandingIsHistory(Step(s, c, e).0, c, rest, user);
      StepKeepsAccounts(s, c, e);
      StepSetsStanding(s, c, e, user);
      hide Step, Enabled, Blocks, LastSetting;
    }
  }

  /** From empty tables: a refresh is refused for a blocked account exactly if the token verifies, the run has
      not retired it, and the run leaves its owner blocked; and for a deactivated one exactly if, besides, the
      run leaves its owner deactivated and not blocked. */
  lemma RefusalIsHistory(users: map<Fraud.UserId, Fraud.User>, c: Config, events: seq<Event>, jti: Jti, pair: PairId,
                         alert: Fraud.AlertId)
    requires IsRun(Initial(users), c, events)
    requires jti in After(Initial(users), c, events).issued
    ensures var s0, s := Initial(users), After(Initial(users), c, events);
      var user, a := s.issued[jti].sub, RefreshStep(s, c, jti, pair, alert).1;
      var good := Verifies(s, jti, Refresh) && !Retired(s0, c, events, jti);
      && (a == Blocked <==> good && IsBlockedAfter(s0, c, events, user))
      && (a == Deactivated <==> good && IsDeactivatedAfter(s0, events, user) && !IsBlockedAfter(s0, c, events, user))
  {
    var s0, s := Initial(users), After(Initial(users), c, events);
    RefreshAnswers(s, c, jti, pair, alert);
    StandingIsHistory(s0, c, events, s.issued[jti].sub);
    if Verifies(s, jti, Refresh) { BlacklistIsHistory(s0, c, events, jti, None); }
  }
}
