/** What every run of the token protocol keeps: a refresh token is rotated at most once, a family has at
    most one usable refresh token, a reuse stops every later refresh of its user, and the cleaner of
    the blacklist cannot be observed. */
module AuthLaws {
  import opened Fraud
  import opened Auth
  import opened Wrappers

  datatype Event =
    | Login(loginUser: UserId, family: Family, loginPair: PairId)
    | Refreshes(jti: Jti, pair: PairId, alert: AlertId)
    | ChecksAccess(access: Jti)
    | LogsOut(user: UserId, refreshToken: Option<Jti>, accessToken: Option<Jti>)
    | RevokesAll(revokedUser: UserId)
    | RevokesOne(session: PairId)
    | FraudEvent(e: Fraud.Event)
    | SetsDeactivated(account: UserId, deactivated: bool)
    | Tick(time: int)
    | Cleans(retention: nat)

  /** `validateAccessToken`, as far as the tables decide it. */
  function AccessAnswer(s: System, jti: Jti): Answer {
    if !Verifies(s, jti, Access) then InvalidToken
    else if jti in s.blacklist then Revoked
    else Accepted
  }

  ghost predicate FreshFamily(s: System, family: Family) {
    forall j | j in s.issued :: s.issued[j].family != family
  }

  /** The identifiers drawn are unused, users exist, the clock does not go back, and a reuse touches
      the alert that the fraud service picks. */
  ghost predicate Enabled(s: System, c: Config, e: Event)
    requires UsersKnown(s)
  {
    match e
    case Login(user, family, pair) =>
      user in s.fraud.users && FreshFamily(s, family) && Unused(s, pair)
    case Refreshes(jti, pair, alert) =>
      Unused(s, pair)
      && (RefreshStep(s, c, jti, pair, alert).1.ReuseDetected? ==> Touches(s.fraud, ReuseOf(s, jti), alert))
    case ChecksAccess(_) => true
    case LogsOut(_, _, _) => true
    case RevokesAll(_) => true
    case RevokesOne(_) => true
    case FraudEvent(f) => Fraud.Enabled(s.fraud, f) && Fraud.WellFormed(f)
    case SetsDeactivated(user, _) => user in s.fraud.users
    case Tick(time) => s.now <= time
    case Cleans(_) => true
  }

  function Step(s: System, c: Config, e: Event): (System, Answer)
    requires UsersKnown(s) && Enabled(s, c, e)
  {
    match e
    case Login(user, family, pair) => IssuePair(s, c, user, family, pair)
    case Refreshes(jti, pair, alert) => RefreshStep(s, c, jti, pair, alert)
    case ChecksAccess(jti) => (s, AccessAnswer(s, jti))
    case LogsOut(user, refresh, access) => LogoutStep(s, user, refresh, access)
    case RevokesAll(user) => (RevokeAllStep(s, user), LoggedOut)
    case RevokesOne(session) =>
      (if session in s.sessions
       then s.(sessions := s.sessions[session := s.sessions[session].(revoked := true)]) else s, LoggedOut)
    case FraudEvent(f) => (s.(fraud := Fraud.Apply(s.fraud, f)), LoggedOut)
    case SetsDeactivated(user, d) =>
      (s.(fraud := s.fraud.(users := s.fraud.users[user := s.fraud.users[user].(isDeactivated := d)])), LoggedOut)
    case Tick(time) => (s.(now := time), LoggedOut)
    case Cleans(retention) => (s.(blacklist := Cleaned(s.blacklist, s.now - retention)), LoggedOut)
  }

  // --- the invariant ---------------------------------------------------------------------------

  /** Sessions belong to issued pairs, and blacklist entries to issued tokens. Both outlive their refresh
      tokens. If entries are kept for `kept` milliseconds after they expire, none is cleaned before its
      access token expires either; `None` says nothing of access tokens. */
  ghost predicate Linked(s: System, kept: Option<nat>) {
    && UsersKnown(s)
    && (forall p | p in s.sessions :: LinkedSession(s, p, kept))
    && EntriesLinked(s, kept)
  }

  predicate Outlasts(t: Token, kind: Kind, expiresAt: int, kept: Option<nat>) {
    && (kind.Refresh? ==> t.exp * 1000 <= expiresAt)
    && (kind.Access? && kept.Some? ==> t.exp * 1000 <= expiresAt + kept.value + 1)
  }

  ghost predicate LinkedSession(s: System, p: PairId, kept: Option<nat>)
    requires p in s.sessions
  {
    var a, r := Jti(p, Access), Jti(p, Refresh);
    && a in s.issued && r in s.issued && s.issued[r].sub == s.sessions[p].user
    && s.issued[a].sub == s.sessions[p].user
    && Outlasts(s.issued[a], Access, s.sessions[p].expiresAt, kept)
    && Outlasts(s.issued[r], Refresh, s.sessions[p].expiresAt, kept)
  }

  predicate EntriesLinked(s: System, kept: Option<nat>) {
    forall j | j in s.blacklist ::
      j in s.issued && Outlasts(s.issued[j], j.kind, s.blacklist[j].expiresAt, kept)
  }

  /** A session lives as long as its refresh token. An access token may live longer than that by no more
      than entries are kept, unless no session is allowed at all. */
  predicate Outlives(c: Config, kept: Option<nat>) {
    kept.Some? ==> c.maxSessions == 0 || c.accessTtl * 1000 <= c.refreshTtl * 1000 + kept.value + 1
  }

  /** The cleaner keeps entries for that long. */
  predicate Patient(e: Event, kept: Option<nat>) {
    e.Cleans? && kept.Some? ==> e.retention >= kept.value
  }

  predicate Covers(kept: Option<nat>, kind: Kind) { kind.Refresh? || kept.Some? }

  /** The refresh token would pass the expiry and blacklist checks. */
  predicate Usable(s: System, jti: Jti) {
    Verifies(s, jti, Refresh) && jti !in s.blacklist
  }

  /** Each family has at most one usable refresh token. */
  ghost predicate OnePerFamily(s: System) {
    forall i, j | i in s.issued && j in s.issued && i != j && Usable(s, i) && Usable(s, j) ::
      s.issued[i].family != s.issued[j].family
  }

  /** The token is known and can never be used again. */
  predicate Spent(s: System, jti: Jti) {
    jti in s.issued && !Usable(s, jti)
  }

  lemma StepKeepsUsers(s: System, c: Config, e: Event)
    requires UsersKnown(s) && Enabled(s, c, e)
    ensures UsersKnown(Step(s, c, e).0)
  {
    var t := Step(s, c, e).0;
    assert s.fraud.users.Keys <= t.fraud.users.Keys;
  }

  /** Handing out a pair keeps the links, wherever the blacklist stands. */
  lemma PairKeepsLinked(s: System, c: Config, user: UserId, family: Family, pair: PairId, kept: Option<nat>)
    requires Linked(s, kept) && user in s.fraud.users && Unused(s, pair) && Outlives(c, kept)
    ensures Linked(IssuePair(s, c, user, family, pair).0, kept)
  {
    var t := IssuePair(s, c, user, family, pair).0;
    assert s.now / 1000 * 1000 <= s.now;
    forall p | p in t.sessions ensures LinkedSession(t, p, kept) {
      if p in s.sessions { assert LinkedSession(s, p, kept); }
    }
  }

  lemma StepKeepsLinked(s: System, c: Config, e: Event, kept: Option<nat>)
    requires Linked(s, kept) && Enabled(s, c, e) && Outlives(c, kept)
    ensures Linked(Step(s, c, e).0, kept)
  {
    StepKeepsUsers(s, c, e);
    match e {
      case Login(user, family, pair) => PairKeepsLinked(s, c, user, family, pair, kept);
      case Refreshes(jti, pair, alert) =>
        if Usable(s, jti) {
          var t := s.issued[jti];
          var b := s.(blacklist := AddEntry(s.blacklist, jti, t, t.sub));
          forall p | p in b.sessions ensures LinkedSession(b, p, kept) { assert LinkedSession(s, p, kept); }
          PairKeepsLinked(b, c, t.sub, t.family, pair, kept);
        } else {
          OtherStepKeepsLinked(s, c, e, kept);
        }
      case _ => OtherStepKeepsLinked(s, c, e, kept);
    }
  }

  lemma OtherStepKeepsLinked(s: System, c: Config, e: Event, kept: Option<nat>)
    requires Linked(s, kept) && Enabled(s, c, e) && !e.Login? && (e.Refreshes? ==> !Usable(s, e.jti))
    requires UsersKnown(Step(s, c, e).0)
    ensures Linked(Step(s, c, e).0, kept)
  {
    OtherStepKeepsSessions(s, c, e);
    OtherStepKeepsEntries(s, c, e, kept);
    var t := Step(s, c, e).0;
    hide Step, Enabled, SameSessions, EntriesLinked;
    forall p | p in t.sessions ensures LinkedSession(t, p, kept) {
      SessionLinked(s, t, p, kept);
    }
  }

  lemma SessionLinked(s: System, t: System, p: PairId, kept: Option<nat>)
    requires Linked(s, kept) && t.issued == s.issued && SameSessions(s, t) && p in t.sessions
    ensures LinkedSession(t, p, kept)
  {
    assert LinkedSession(s, p, kept);
  }

  lemma OtherStepKeepsSessions(s: System, c: Config, e: Event)
    requires UsersKnown(s) && Enabled(s, c, e) && !e.Login? && (e.Refreshes? ==> !Usable(s, e.jti))
    ensures Step(s, c, e).0.issued == s.issued && SameSessions(s, Step(s, c, e).0)
  {
  }

  lemma OtherStepKeepsEntries(s: System, c: Config, e: Event, kept: Option<nat>)
    requires Linked(s, kept) && Enabled(s, c, e) && !e.Login? && (e.Refreshes? ==> !Usable(s, e.jti))
    ensures EntriesLinked(Step(s, c, e).0, kept)
  {
    hide LinkedSession, RefreshStep, LogoutStep, RevokeAllStep;
    match e {
      case Refreshes(jti, pair, alert) => RefusalKeepsEntries(s, c, jti, pair, alert, kept);
      case LogsOut(user, refresh, access) => LogoutKeepsEntries(s, user, refresh, access, kept);
      case RevokesAll(user) => RevokingKeepsEntries(s, user, kept);
      case _ =>
    }
  }

  lemma RefusalKeepsEntries(s: System, c: Config, jti: Jti, pair: PairId, alert: AlertId, kept: Option<nat>)
    requires UsersKnown(s) && EntriesLinked(s, kept) && !Usable(s, jti)
    ensures EntriesLinked(RefreshStep(s, c, jti, pair, alert).0, kept)
  {
  }

  lemma LogoutKeepsEntries(s: System, user: UserId, refresh: Option<Jti>, access: Option<Jti>, kept: Option<nat>)
    requires EntriesLinked(s, kept)
    ensures EntriesLinked(LogoutStep(s, user, refresh, access).0, kept)
  {
  }

  predicate SameSessions(s: System, t: System) {
    forall p | p in t.sessions :: p in s.sessions
      && t.sessions[p].user == s.sessions[p].user && t.sessions[p].expiresAt == s.sessions[p].expiresAt
  }

  lemma RevokingKeepsEntries(s: System, user: UserId, kept: Option<nat>)
    requires Linked(s, kept)
    ensures EntriesLinked(RevokeAllStep(s, user), kept)
  {
    var t := RevokeAllStep(s, user);
    forall j | j in t.blacklist && j !in s.blacklist
      ensures j in t.issued && Outlasts(t.issued[j], j.kind, t.blacklist[j].expiresAt, kept)
    {
      assert LinkedSession(s, j.pair, kept);
    }
  }

  // --- spent tokens stay spent -----------------------------------------------------------------

  /** A token that is expired stays expired, and only an expired one loses its blacklist entry. */
  lemma StepKeepsSpent(s: System, c: Config, e: Event, jti: Jti)
    requires Linked(s, None) && Enabled(s, c, e) && Spent(s, jti)
    ensures Spent(Step(s, c, e).0, jti)
  {
    var t := Step(s, c, e).0;
    assert jti in t.issued && t.issued[jti] == s.issued[jti];
    if e.Cleans? && jti.kind.Refresh? && jti in s.blacklist && jti !in t.blacklist {
      assert s.blacklist[jti].expiresAt < s.now;
      assert s.issued[jti].exp * 1000 < s.now;
    }
  }

  /** A successful rotation takes a usable token and spends it. */
  lemma RotationSpends(s: System, c: Config, jti: Jti, pair: PairId, alert: AlertId)
    requires Linked(s, None) && Unused(s, pair)
    requires RefreshStep(s, c, jti, pair, alert).1.Pair?
    ensures Usable(s, jti) && Spent(RefreshStep(s, c, jti, pair, alert).0, jti)
  {
  }

  // --- runs ------------------------------------------------------------------------------------

  ghost predicate IsRun(s: System, c: Config, events: seq<Event>)
    requires UsersKnown(s)
    decreases |events|
  {
    events == [] ||
    (Enabled(s, c, events[0]) && (StepKeepsUsers(s, c, events[0]); IsRun(Step(s, c, events[0]).0, c, events[1..])))
  }

  ghost function After(s: System, c: Config, events: seq<Event>): (t: System)
    requires UsersKnown(s) && IsRun(s, c, events)
    ensures UsersKnown(t)
    decreases |events|
  {
    if events == [] then s
    else StepKeepsUsers(s, c, events[0]); After(Step(s, c, events[0]).0, c, events[1..])
  }

  /** How often the run hands out a pair for a token that satisfies `counted`. */
  ghost function Rotations(s: System, c: Config, events: seq<Event>, counted: Jti -> bool): nat
    requires UsersKnown(s) && IsRun(s, c, events)
    decreases |events|
  {
    if events == [] then 0
    else
      StepKeepsUsers(s, c, events[0]);
      var (t, a) := Step(s, c, events[0]);
      (if events[0].Refreshes? && a.Pair? && counted(events[0].jti) then 1 else 0)
      + Rotations(t, c, events[1..], counted)
  }

  /** In every run, each refresh token is rotated at most once, and never once it is spent. */
  lemma {:induction false} RotatedAtMostOnce(s: System, c: Config, events: seq<Event>, jti: Jti)
    requires Linked(s, None) && IsRun(s, c, events)
    ensures Rotations(s, c, events, j => j == jti) <= 1
    ensures Spent(s, jti) ==> Rotations(s, c, events, j => j == jti) == 0
    decreases |events|
  {
    if events != [] {
      var e := events[0];
      var t := Step(s, c, e).0;
      StepKeepsLinked(s, c, e, None);
      RotatedAtMostOnce(t, c, events[1..], jti);
      if Spent(s, jti) { StepKeepsSpent(s, c, e, jti); }
      if e.Refreshes? && e.jti == jti && Step(s, c, e).1.Pair? {
        RotationSpends(s, c, jti, e.pair, e.alert);
      }
    }
  }

  // --- one usable token for each family --------------------------------------------------------

  lemma StepKeepsOnePerFamily(s: System, c: Config, e: Event)
    requires Linked(s, None) && OnePerFamily(s) && Enabled(s, c, e)
    ensures OnePerFamily(Step(s, c, e).0)
  {
    var t := Step(s, c, e).0;
    forall i, j | i in t.issued && j in t.issued && i != j && Usable(t, i) && Usable(t, j)
      ensures t.issued[i].family != t.issued[j].family
    {
      if i in s.issued && j in s.issued {
        UsableBefore(s, c, e, i);
        UsableBefore(s, c, e, j);
      } else if i in s.issued {
        NewTokenAlone(s, c, e, i, j);
      } else {
        assert j in s.issued by { OneNewRefresh(s, c, e, i, j); }
        NewTokenAlone(s, c, e, j, i);
      }
    }
  }

  lemma UsableBefore(s: System, c: Config, e: Event, i: Jti)
    requires Linked(s, None) && Enabled(s, c, e) && i in s.issued && Usable(Step(s, c, e).0, i)
    ensures Usable(s, i) && Step(s, c, e).0.issued[i] == s.issued[i]
  {
    if Spent(s, i) { StepKeepsSpent(s, c, e, i); }
  }

  lemma OneNewRefresh(s: System, c: Config, e: Event, i: Jti, j: Jti)
    requires UsersKnown(s) && Enabled(s, c, e) && i != j && i.kind.Refresh? && j.kind.Refresh?
    requires i in Step(s, c, e).0.issued && i !in s.issued && j in Step(s, c, e).0.issued
    ensures j in s.issued
  {
  }

  /** A new refresh token shares its family with no token that is still usable. */
  lemma NewTokenAlone(s: System, c: Config, e: Event, i: Jti, j: Jti)
    requires Linked(s, None) && OnePerFamily(s) && Enabled(s, c, e)
    requires i in s.issued && j !in s.issued && j in Step(s, c, e).0.issued && j.kind.Refresh?
    requires Usable(Step(s, c, e).0, i)
    ensures Step(s, c, e).0.issued[i].family != Step(s, c, e).0.issued[j].family
  {
    UsableBefore(s, c, e, i);
    if e.Refreshes? {
      RotationSpends(s, c, e.jti, e.pair, e.alert);
    }
  }

  lemma {:induction false} RunKeepsOnePerFamily(s: System, c: Config, events: seq<Event>)
    requires Linked(s, None) && OnePerFamily(s) && IsRun(s, c, events)
    ensures Linked(After(s, c, events), None) && OnePerFamily(After(s, c, events))
    decreases |events|
  {
    if events != [] {
      StepKeepsLinked(s, c, events[0], None);
      StepKeepsOnePerFamily(s, c, events[0]);
      RunKeepsOnePerFamily(Step(s, c, events[0]).0, c, events[1..]);
    }
  }

  // --- how many sessions there are --------------------------------------------------------------

  ghost predicate WithinCap(s: System, c: Config) {
    forall user :: ActiveSessions(s.sessions, user, s.now) <= c.maxSessions
  }

  /** Only handing out a pair can make a user's sessions more, by the one that the cap leaves room for. */
  lemma ActiveAfterStep(s: System, c: Config, e: Event, user: UserId)
    requires UsersKnown(s) && Enabled(s, c, e)
    ensures var t := Step(s, c, e).0;
      Active(t.sessions, user, t.now) <= Active(s.sessions, user, s.now)
      || exists pair :: Active(t.sessions, user, t.now) <= Active(s.sessions, user, s.now) + {pair}
           && ActiveSessions(s.sessions, user, s.now) < c.maxSessions
  {
    var (t, a) := Step(s, c, e);
    if a.Pair? {
      PairActive(s, c, e, user);
    } else {
      NoPairActive(s, c, e, user);
    }
  }

  lemma PairActive(s: System, c: Config, e: Event, user: UserId)
    requires UsersKnown(s) && Enabled(s, c, e) && Step(s, c, e).1.Pair?
    ensures var (t, a) := Step(s, c, e);
      && Active(t.sessions, user, t.now) <= Active(s.sessions, user, s.now) + {a.pair}
      && (Active(t.sessions, user, t.now) <= Active(s.sessions, user, s.now)
          || ActiveSessions(s.sessions, user, s.now) < c.maxSessions)
  {
  }

  lemma NoPairActive(s: System, c: Config, e: Event, user: UserId)
    requires UsersKnown(s) && Enabled(s, c, e) && !Step(s, c, e).1.Pair?
    ensures Active(Step(s, c, e).0.sessions, user, Step(s, c, e).0.now) <= Active(s.sessions, user, s.now)
  {
  }

  /** In every run each user has at most `maxSessions` active sessions. */
  lemma {:induction false} RunKeepsSessionCap(s: System, c: Config, events: seq<Event>)
    requires UsersKnown(s) && WithinCap(s, c) && IsRun(s, c, events)
    ensures WithinCap(After(s, c, events), c)
    decreases |events|
  {
    if events != [] {
      hide Step, Enabled;
      var e := events[0];
      StepKeepsUsers(s, c, e);
      var t := Step(s, c, e).0;
      forall user ensures ActiveSessions(t.sessions, user, t.now) <= c.maxSessions {
        CapAfterStep(s, c, e, user);
      }
      RunKeepsSessionCap(t, c, events[1..]);
    }
  }

  lemma CapAfterStep(s: System, c: Config, e: Event, user: UserId)
    requires UsersKnown(s) && Enabled(s, c, e) && ActiveSessions(s.sessions, user, s.now) <= c.maxSessions
    ensures ActiveSessions(Step(s, c, e).0.sessions, user, Step(s, c, e).0.now) <= c.maxSessions
  {
    ActiveAfterStep(s, c, e, user);
    hide Step, Enabled;
    var t := Step(s, c, e).0;
    var before, after := Active(s.sessions, user, s.now), Active(t.sessions, user, t.now);
    if after <= before {
      SubsetSize(after, before);
    } else {
      var pair :| after <= before + {pair} && |before| < c.maxSessions;
      SubsetSize(after, before + {pair});
    }
  }

  // --- a reuse stops the user ------------------------------------------------------------------

  /** The fraud tables are consistent, and the user of every reuse alert is blocked. */
  ghost predicate Guarded(s: System) {
    Linked(s, None) && Fraud.Consistent(s.fraud) && ReuseBlocks(s.fraud)
  }

  /** No admin unblocks a user in this step. */
  predicate NoUnblock(e: Event) {
    e.FraudEvent? && e.e.AdminSets? ==> e.e.blocked
  }

  /** A step acts on the fraud tables as one of their own steps, or only deactivates an account, or
      leaves them alone. */
  lemma StepKeepsGuarded(s: System, c: Config, e: Event)
    requires Guarded(s) && Enabled(s, c, e) && NoUnblock(e)
    ensures Guarded(Step(s, c, e).0)
  {
    StepKeepsLinked(s, c, e, None);
    if e.FraudEvent? {
      StepKeepsConsistent(s.fraud, e.e);
      StepKeepsReuseBlocks(s.fraud, e.e);
    } else if e.Refreshes? && Step(s, c, e).1.ReuseDetected? {
      var f := Detected(ReuseOf(s, e.jti), s.now, e.alert);
      StepKeepsConsistent(s.fraud, f);
      StepKeepsReuseBlocks(s.fraud, f);
    } else if e.SetsDeactivated? {
      var t := Step(s, c, e).0;
      assert t.fraud.alerts == s.fraud.alerts && t.fraud.outbox == s.fraud.outbox;
      forall id | id in t.fraud.alerts ensures ConsistentAlert(t.fraud, id) {
        assert ConsistentAlert(s.fraud, id);
      }
    } else {
      assert Step(s, c, e).0.fraud == s.fraud;
    }
  }

  predicate BlockedUser(s: System, user: UserId) {
    user in s.fraud.users && s.fraud.users[user].isBlocked
  }

  lemma StepKeepsUserBlocked(s: System, c: Config, e: Event, user: UserId)
    requires UsersKnown(s) && Enabled(s, c, e) && NoUnblock(e) && BlockedUser(s, user)
    ensures BlockedUser(Step(s, c, e).0, user)
  {
    if e.FraudEvent? {
      StepKeepsBlocked(s.fraud, e.e, user);
    } else if e.Refreshes? && Step(s, c, e).1.ReuseDetected? {
      StepKeepsBlocked(s.fraud, Detected(ReuseOf(s, e.jti), s.now, e.alert), user);
    }
  }

  /** Presenting a blacklisted, unexpired refresh token leaves its user blocked. It blacklists no
      token: the descendants of the token stay usable, and only the block stops them. */
  lemma ReuseBlocksOwner(s: System, c: Config, jti: Jti, pair: PairId, alert: AlertId)
    requires Guarded(s) && Enabled(s, c, Refreshes(jti, pair, alert))
    requires Verifies(s, jti, Refresh) && jti in s.blacklist
    ensures var (t, a) := RefreshStep(s, c, jti, pair, alert);
      a.ReuseDetected? && BlockedUser(t, s.issued[jti].sub)
      && t.blacklist.Keys == s.blacklist.Keys && forall j :: Usable(t, j) == Usable(s, j)
  {
    var p := ReuseOf(s, jti);
    ReuseBlocksUser(s.fraud, s.issued[jti].sub, p.subject.sessionId, s.now, alert);
  }

  /** How often the run rotates a refresh token of the user. */
  ghost function UserRotations(s: System, c: Config, events: seq<Event>, user: UserId): nat
    requires UsersKnown(s) && IsRun(s, c, events)
    decreases |events|
  {
    if events == [] then 0
    else
      StepKeepsUsers(s, c, events[0]);
      var (t, a) := Step(s, c, events[0]);
      (if events[0].Refreshes? && a.Pair? && s.issued[events[0].jti].sub == user then 1 else 0)
      + UserRotations(t, c, events[1..], user)
  }

  /** In a run without an admin's unblocking, no refresh of a blocked user succeeds. */
  lemma {:induction false} BlockedUserNeverRefreshes(s: System, c: Config, events: seq<Event>, user: UserId)
    requires UsersKnown(s) && IsRun(s, c, events) && BlockedUser(s, user)
    requires forall e | e in events :: NoUnblock(e)
    ensures UserRotations(s, c, events, user) == 0
    decreases |events|
  {
    if events != [] {
      StepKeepsUserBlocked(s, c, events[0], user);
      StepKeepsUsers(s, c, events[0]);
      BlockedUserNeverRefreshes(Step(s, c, events[0]).0, c, events[1..], user);
    }
  }

  lemma {:induction false} RunKeepsGuarded(s: System, c: Config, events: seq<Event>)
    requires Guarded(s) && IsRun(s, c, events)
    requires forall e | e in events :: NoUnblock(e)
    ensures Guarded(After(s, c, events))
    decreases |events|
  {
    if events != [] {
      StepKeepsGuarded(s, c, events[0]);
      RunKeepsGuarded(Step(s, c, events[0]).0, c, events[1..]);
    }
  }

  /** The empty tables over any users. */
  function Initial(users: map<UserId, User>): System {
    System(0, map[], map[], map[], Fraud.State(users, map[], []))
  }

  /** In every run from the empty tables without an admin's unblocking: once a blacklisted, unexpired
      refresh token is presented, no later refresh of its user succeeds. */
  lemma ReuseStopsRefreshes(users: map<UserId, User>, c: Config, before: seq<Event>, jti: Jti,
                            pair: PairId, alert: AlertId, later: seq<Event>)
    requires IsRun(Initial(users), c, before)
    requires forall e | e in before :: NoUnblock(e)
    requires forall e | e in later :: NoUnblock(e)
    requires var s := After(Initial(users), c, before);
      && Enabled(s, c, Refreshes(jti, pair, alert))
      && Verifies(s, jti, Refresh) && jti in s.blacklist
    requires var s := After(Initial(users), c, before);
      var t := RefreshStep(s, c, jti, pair, alert).0;
      UsersKnown(t) && IsRun(t, c, later)
    ensures var s := After(Initial(users), c, before);
      UserRotations(RefreshStep(s, c, jti, pair, alert).0, c, later, s.issued[jti].sub) == 0
  {
    var s := After(Initial(users), c, before);
    RunKeepsGuarded(Initial(users), c, before);
    ReuseBlocksOwner(s, c, jti, pair, alert);
    BlockedUserNeverRefreshes(RefreshStep(s, c, jti, pair, alert).0, c, later, s.issued[jti].sub);
  }

  // --- the cleaner cannot be observed ----------------------------------------------------------

  /** The same tables, but for blacklist entries of expired tokens. */
  ghost predicate Alike(a: System, b: System, kept: Option<nat>) {
    Linked(a, kept) && Linked(b, kept) && SameVerdicts(a, b)
  }

  /** An entry that the cleaner may delete is about an expired token. */
  lemma CleanableIsExpired(s: System, j: Jti, retention: nat, kept: nat)
    requires Linked(s, Some(kept)) && retention >= kept
    requires j in s.blacklist && s.blacklist[j].expiresAt < s.now - retention
    ensures j in s.issued && !Alive(s.issued[j], s.now)
  {
    assert Outlasts(s.issued[j], j.kind, s.blacklist[j].expiresAt, Some(kept));
  }

  lemma CleaningKeepsAlike(a: System, b: System, c: Config, e: Event, kept: nat)
    requires Alike(a, b, Some(kept)) && Enabled(a, c, e) && e.Cleans? && Patient(e, Some(kept))
    requires Outlives(c, Some(kept))
    ensures Alike(Step(a, c, e).0, b, Some(kept))
  {
    StepKeepsLinked(a, c, e, Some(kept));
    var t := Step(a, c, e).0;
    forall j | j in a.blacklist && j !in t.blacklist ensures !Alive(a.issued[j], a.now) {
      CleanableIsExpired(a, j, e.retention, kept);
    }
  }

  ghost predicate SameVerdicts(a: System, b: System) {
    && a.now == b.now && a.issued == b.issued && a.sessions == b.sessions && a.fraud == b.fraud
    && forall j | j in a.issued && Alive(a.issued[j], a.now) :: j in a.blacklist <==> j in b.blacklist
  }

  /** Any other step gets the same answer on both sides, and keeps them alike. */
  lemma StepKeepsAlike(a: System, b: System, c: Config, e: Event, kept: Option<nat>)
    requires Alike(a, b, kept) && Enabled(a, c, e) && !e.Cleans? && Outlives(c, kept)
    ensures Enabled(b, c, e)
    ensures Step(a, c, e).1 == Step(b, c, e).1 && Alike(Step(a, c, e).0, Step(b, c, e).0, kept)
  {
    SameStep(a, b, c, e, kept);
    StepKeepsLinked(a, c, e, kept);
    StepKeepsLinked(b, c, e, kept);
  }

  predicate IsShort(e: Event) {
    !e.Login? && !e.Refreshes? && !e.LogsOut? && !e.RevokesAll? && !e.Cleans?
  }

  lemma SameEnabled(a: System, b: System, c: Config, e: Event, kept: Option<nat>)
    requires Alike(a, b, kept) && Enabled(a, c, e) && !e.Refreshes?
    ensures Enabled(b, c, e)
  {
  }

  lemma SameShortStep(a: System, b: System, c: Config, e: Event)
    requires UsersKnown(a) && UsersKnown(b) && Enabled(a, c, e) && Enabled(b, c, e) && IsShort(e)
    requires SameVerdicts(a, b)
    ensures Step(a, c, e).1 == Step(b, c, e).1 && SameVerdicts(Step(a, c, e).0, Step(b, c, e).0)
  {
  }

  lemma SameStep(a: System, b: System, c: Config, e: Event, kept: Option<nat>)
    requires Alike(a, b, kept) && Enabled(a, c, e) && !e.Cleans?
    ensures Enabled(b, c, e)
    ensures Step(a, c, e).1 == Step(b, c, e).1 && SameVerdicts(Step(a, c, e).0, Step(b, c, e).0)
  {
    if !e.Refreshes? { SameEnabled(a, b, c, e, kept); }
    match e {
      case Login(user, family, pair) => SamePair(a, b, c, user, family, pair);
      case Refreshes(jti, pair, alert) => SameRefresh(a, b, c, jti, pair, alert, kept);
      case LogsOut(user, refresh, access) => SameLogout(a, b, user, refresh, access);
      case RevokesAll(user) => SameRevokeAll(a, b, user);
      case _ => SameShortStep(a, b, c, e);
    }
    hide IssuePair, RefreshStep, LogoutStep, RevokeAllStep, SameVerdicts;
  }

  lemma SameLogout(a: System, b: System, user: UserId, refresh: Option<Jti>, access: Option<Jti>)
    requires SameVerdicts(a, b)
    ensures LogoutStep(a, user, refresh, access).1 == LogoutStep(b, user, refresh, access).1
    ensures SameVerdicts(LogoutStep(a, user, refresh, access).0, LogoutStep(b, user, refresh, access).0)
  {
  }

  lemma SameRevokeAll(a: System, b: System, user: UserId)
    requires SameVerdicts(a, b)
    ensures SameVerdicts(RevokeAllStep(a, user), RevokeAllStep(b, user))
  {
  }

  lemma SamePair(a: System, b: System, c: Config, user: UserId, family: Family, pair: PairId)
    requires SameVerdicts(a, b) && Unused(a, pair)
    requires (forall j | j in a.blacklist :: j in a.issued) && forall j | j in b.blacklist :: j in b.issued
    ensures IssuePair(a, c, user, family, pair).1 == IssuePair(b, c, user, family, pair).1
    ensures SameVerdicts(IssuePair(a, c, user, family, pair).0, IssuePair(b, c, user, family, pair).0)
  {
  }

  lemma SameRefresh(a: System, b: System, c: Config, jti: Jti, pair: PairId, alert: AlertId, kept: Option<nat>)
    requires Alike(a, b, kept) && Enabled(a, c, Refreshes(jti, pair, alert))
    ensures Enabled(b, c, Refreshes(jti, pair, alert))
    ensures RefreshStep(a, c, jti, pair, alert).1 == RefreshStep(b, c, jti, pair, alert).1
    ensures SameVerdicts(RefreshStep(a, c, jti, pair, alert).0, RefreshStep(b, c, jti, pair, alert).0)
  {
    if Usable(a, jti) {
      var t := a.issued[jti];
      SamePair(a.(blacklist := AddEntry(a.blacklist, jti, t, t.sub)),
               b.(blacklist := AddEntry(b.blacklist, jti, t, t.sub)),
               c, t.sub, t.family, pair);
    }
  }

  /** The events of a run that are not the cleaner's. */
  function WithoutCleaning(events: seq<Event>): seq<Event> {
    if events == [] then []
    else (if events[0].Cleans? then [] else [events[0]]) + WithoutCleaning(events[1..])
  }

  /** The answers of a run to everything but the cleaner. */
  ghost function Answers(s: System, c: Config, events: seq<Event>): seq<Answer>
    requires UsersKnown(s) && IsRun(s, c, events)
    decreases |events|
  {
    if events == [] then []
    else
      StepKeepsUsers(s, c, events[0]);
      var (t, a) := Step(s, c, events[0]);
      (if events[0].Cleans? then [] else [a]) + Answers(t, c, events[1..])
  }

  /** Whatever the cleaner deletes along a run in which it keeps entries long enough, the run without it
      gets the same answers. */
  lemma {:induction false} CleaningChangesNoAnswer(a: System, b: System, c: Config, events: seq<Event>, kept: nat)
    requires Alike(a, b, Some(kept)) && IsRun(a, c, events) && Outlives(c, Some(kept))
    requires forall e | e in events :: Patient(e, Some(kept))
    ensures IsRun(b, c, WithoutCleaning(events))
    ensures Answers(b, c, WithoutCleaning(events)) == Answers(a, c, events)
    decreases |events|
  {
    if events != [] {
      var e := events[0];
      var t := Step(a, c, e).0;
      assert e in events && forall d | d in events[1..] :: d in events;
      if e.Cleans? {
        CleaningKeepsAlike(a, b, c, e, kept);
        CleaningChangesNoAnswer(t, b, c, events[1..], kept);
        assert WithoutCleaning(events) == WithoutCleaning(events[1..]);
      } else {
        StepKeepsAlike(a, b, c, e, Some(kept));
        CleaningChangesNoAnswer(t, Step(b, c, e).0, c, events[1..], kept);
        var rest := WithoutCleaning(events);
        assert rest[0] == e && rest[1..] == WithoutCleaning(events[1..]);
      }
    }
  }
}
