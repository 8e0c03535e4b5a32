/** Refresh-token rotation of src/auth/auth.service.ts, with the sessions that it creates
    (src/sessions/sessions.service.ts) and the fraud block on reuse (module Fraud).

    `System` holds the clock, every token handed out, and the tables; `Service` is the service over
    the tables. Tokens are unforgeable: a presented token passes the signature check only if it was
    handed out with that kind. The two tokens of a pair have the identifiers pair/Access and
    pair/Refresh, and a session row is known by its pair. Each handler is one step. */
module Auth {
  import opened Fraud
  import opened Wrappers

  type Family = string
  type PairId = string

  datatype Kind = Access | Refresh

  datatype Jti = Jti(pair: PairId, kind: Kind)

  /** A signed token; `exp` is in seconds. */
  datatype Token = Token(sub: UserId, family: Family, exp: int)

  /** A blacklisted token; `expiresAt` is in milliseconds. */
  datatype Entry = Entry(expiresAt: int, userId: UserId, family: Option<Family>, reusedAt: Option<int>)

  datatype Session = Session(user: UserId, expiresAt: int, revoked: bool)

  datatype Config = Config(accessTtl: nat, refreshTtl: nat, maxSessions: nat)

  datatype System = System(now: int, issued: map<Jti, Token>, blacklist: map<Jti, Entry>,
                         sessions: map<PairId, Session>, fraud: Fraud.State)

  datatype Answer =
    | Pair(pair: PairId) | InvalidToken | ReuseDetected | Blocked | Deactivated
    | SessionLimit | NotOwner | Revoked | Accepted | LoggedOut

  // --- the parts of the handlers ---------------------------------------------------------------

  /** `jwt.verify` accepts the expiry. */
  predicate Alive(t: Token, now: int) {
    now / 1000 < t.exp
  }

  /** The token was handed out with this kind, and its expiry is accepted. */
  predicate Verifies(s: System, jti: Jti, kind: Kind) {
    jti in s.issued && jti.kind == kind && Alive(s.issued[jti], s.now)
  }

  function Active(sessions: map<PairId, Session>, user: UserId, now: int): set<PairId> {
    set p | p in sessions && sessions[p].user == user && !sessions[p].revoked && sessions[p].expiresAt > now
  }

  function ActiveSessions(sessions: map<PairId, Session>, user: UserId, now: int): nat {
    |Active(sessions, user, now)|
  }

  type Blacklist = map<Jti, Entry>

  /** The upsert of `blacklistToken`; it keeps the mark of an earlier reuse. */
  function AddEntry(bl: Blacklist, jti: Jti, t: Token, user: UserId): Blacklist {
    bl[jti := Entry(t.exp * 1000, user, Some(t.family), if jti in bl then bl[jti].reusedAt else None)]
  }

  predicate Unused(s: System, pair: PairId) {
    Jti(pair, Access) !in s.issued && Jti(pair, Refresh) !in s.issued && pair !in s.sessions
  }

  /** `issueTokenPair`: at the session cap no session is created, and the pair is never handed out. */
  function IssuePair(s: System, c: Config, user: UserId, family: Family, pair: PairId): (System, Answer) {
    if ActiveSessions(s.sessions, user, s.now) >= c.maxSessions then (s, SessionLimit)
    else
      var seconds := s.now / 1000;
      (s.(issued := s.issued
            [Jti(pair, Refresh) := Token(user, family, seconds + c.refreshTtl)]
            [Jti(pair, Access) := Token(user, family, seconds + c.accessTtl)],
          sessions := s.sessions[pair := Session(user, s.now + c.refreshTtl * 1000, false)]),
       Pair(pair))
  }

  /** The payload of a reuse: the token's user, and its session if the row still exists. */
  function ReuseOf(s: System, jti: Jti): Payload
    requires jti in s.issued
  {
    ReusePayload(s.issued[jti].sub, if jti.pair in s.sessions then Some(jti.pair) else None)
  }

  predicate UsersKnown(s: System) {
    forall j | j in s.issued :: s.issued[j].sub in s.fraud.users
  }

  /** `refreshToken`, with the pair to issue or the alert that a reuse touches. */
  function RefreshStep(s: System, c: Config, jti: Jti, pair: PairId, alert: AlertId): (System, Answer)
    requires UsersKnown(s)
  {
    if !Verifies(s, jti, Refresh) then (s, InvalidToken)
    else
      var t := s.issued[jti];
      if jti in s.blacklist then
        (s.(blacklist := s.blacklist[jti := s.blacklist[jti].(reusedAt := Some(s.now))],
            fraud := Detect(s.fraud, ReuseOf(s, jti), s.now, alert)), ReuseDetected)
      else if s.fraud.users[t.sub].isBlocked then (s, Blocked)
      else if s.fraud.users[t.sub].isDeactivated then (s, Deactivated)
      else IssuePair(s.(blacklist := AddEntry(s.blacklist, jti, t, t.sub)), c, t.sub, t.family, pair)
  }

  /** `logout`: the access token is blacklisted whoever owns it, the refresh token only if it is the
      user's own. */
  function LogoutStep(s: System, user: UserId, refresh: Option<Jti>, access: Option<Jti>): (System, Answer) {
    var bl := if access.Some? && Verifies(s, access.value, Access)
              then AddEntry(s.blacklist, access.value, s.issued[access.value], user) else s.blacklist;
    if refresh.None? then (s.(blacklist := bl), LoggedOut)
    else if !Verifies(s, refresh.value, Refresh) then (s.(blacklist := bl), InvalidToken)
    else if s.issued[refresh.value].sub != user then (s.(blacklist := bl), NotOwner)
    else (s.(blacklist := AddEntry(bl, refresh.value, s.issued[refresh.value], user)), LoggedOut)
  }

  function OpenSessions(sessions: map<PairId, Session>, user: UserId): set<PairId> {
    set p | p in sessions && sessions[p].user == user && !sessions[p].revoked
  }

  function TokensOf(pairs: set<PairId>): set<Jti> {
    (set p | p in pairs :: Jti(p, Access)) + (set p | p in pairs :: Jti(p, Refresh))
  }

  function RevokedEntries(bl: Blacklist, sessions: map<PairId, Session>, user: UserId): Blacklist {
    map j | j in TokensOf(OpenSessions(sessions, user)) && j !in bl && j.pair in sessions ::
      Entry(sessions[j.pair].expiresAt, user, None, None)
  }

  /** `revokeAllSessions`: both tokens of every open session, skipping those already listed. */
  function RevokeAllStep(s: System, user: UserId): System {
    var open := OpenSessions(s.sessions, user);
    s.(blacklist := s.blacklist + RevokedEntries(s.blacklist, s.sessions, user),
       sessions := map p | p in s.sessions ::
         if p in open then s.sessions[p].(revoked := true) else s.sessions[p])
  }

  /** The entries that `cleanBlacklistedTokens` leaves. */
  function Cleaned(bl: Blacklist, cutoff: int): Blacklist {
    map j | j in bl && bl[j].expiresAt >= cutoff :: bl[j]
  }

  // --- the service -----------------------------------------------------------------------------

  class Service {
    const config: Config
    const fraud: Fraud.Service
    var blacklist: Blacklist
    var sessions: map<PairId, Session>
    ghost var issued: map<Jti, Token>

    ghost function Tables(now: int): System
      reads this, fraud
    {
      System(now, issued, blacklist, sessions, fraud.Tables())
    }

    constructor (config: Config, fraud: Fraud.Service)
      ensures this.config == config && this.fraud == fraud
      ensures Tables(0) == System(0, map[], map[], map[], fraud.Tables())
    {
      this.config, this.fraud := config, fraud;
      blacklist, sessions, issued := map[], map[], map[];
    }

    method BlacklistToken(jti: Jti, t: Token, user: UserId)
      modifies this
      ensures blacklist == AddEntry(old(blacklist), jti, t, user)
      ensures sessions == old(sessions) && issued == old(issued)
    {
      var reusedAt := if jti in blacklist then blacklist[jti].reusedAt else None;
      blacklist := blacklist[jti := Entry(t.exp * 1000, user, Some(t.family), reusedAt)];
    }

    method IssueTokenPair(user: UserId, family: Family, pair: PairId, now: int) returns (a: Answer)
      modifies this
      ensures (Tables(now), a) == IssuePair(old(Tables(now)), config, user, family, pair)
    {
      var active := Active(sessions, user, now);
      if |active| >= config.maxSessions { return SessionLimit; }
      sessions := sessions[pair := Session(user, now + config.refreshTtl * 1000, false)];
      issued := issued[Jti(pair, Refresh) := Token(user, family, now / 1000 + config.refreshTtl)]
                      [Jti(pair, Access) := Token(user, family, now / 1000 + config.accessTtl)];
      return Pair(pair);
    }

    /** What checking the signature of a token under the secret of a kind yields: its payload, if the
        token was handed out with that kind. */
    ghost predicate SignatureCheck(jti: Jti, kind: Kind, payload: Option<Token>)
      reads this
    {
      payload == if jti in issued && jti.kind == kind then Some(issued[jti]) else None
    }

    method RefreshToken(jti: Jti, payload: Option<Token>, pair: PairId, now: int)
      returns (a: Answer, ghost alert: AlertId)
      requires UsersKnown(Tables(now)) && SignatureCheck(jti, Refresh, payload)
      modifies this, fraud
      ensures a.ReuseDetected? ==>
        jti in old(issued) && Touches(old(fraud.Tables()), ReuseOf(old(Tables(now)), jti), alert)
      ensures (Tables(now), a) == RefreshStep(old(Tables(now)), config, jti, pair, alert)
    {
      alert := 0;
      if payload.None? || now / 1000 >= payload.value.exp { return InvalidToken, 0; }
      var t := payload.value;
      if jti in blacklist {
        blacklist := blacklist[jti := blacklist[jti].(reusedAt := Some(now))];
        var session := if jti.pair in sessions then Some(jti.pair) else None;
        var touched := fraud.HandleTokenReuse(t.sub, session, now);
        return ReuseDetected, touched;
      }
      assert t.sub in fraud.Tables().users;
      if fraud.users[t.sub].isBlocked { return Blocked, 0; }
      if fraud.users[t.sub].isDeactivated { return Deactivated, 0; }
      BlacklistToken(jti, t, t.sub);
      a := IssueTokenPair(t.sub, t.family, pair, now);
    }

    /** The tokens are given with the payloads that their signature checks yield. */
    method Logout(user: UserId, refresh: Option<Jti>, refreshPayload: Option<Token>,
                  access: Option<Jti>, accessPayload: Option<Token>, now: int)
      returns (a: Answer)
      requires refresh.Some? ==> SignatureCheck(refresh.value, Refresh, refreshPayload)
      requires access.Some? ==> SignatureCheck(access.value, Access, accessPayload)
      modifies this
      ensures (Tables(now), a) == LogoutStep(old(Tables(now)), user, refresh, access)
    {
      if access.Some? && accessPayload.Some? && now / 1000 < accessPayload.value.exp {
        BlacklistToken(access.value, accessPayload.value, user);
      }
      if refresh.None? { return LoggedOut; }
      if refreshPayload.None? || now / 1000 >= refreshPayload.value.exp { return InvalidToken; }
      if refreshPayload.value.sub != user { return NotOwner; }
      BlacklistToken(refresh.value, refreshPayload.value, user);
      return LoggedOut;
    }

    method RevokeAllSessions(user: UserId, ghost now: int)
      modifies this
      ensures Tables(now) == RevokeAllStep(old(Tables(now)), user)
    {
      var open := set p | p in sessions && sessions[p].user == user && !sessions[p].revoked;
      assert open == OpenSessions(sessions, user);
      blacklist := blacklist + RevokedEntries(blacklist, sessions, user);
      sessions := map p | p in sessions ::
        if p in open then sessions[p].(revoked := true) else sessions[p];
    }

    /** The daily cleaner: batches of at most 500 expired entries, in whatever order the table gives
        them, until a batch is not full. */
    method CleanBlacklistedTokens(cutoff: int) returns (deleted: nat)
      modifies this`blacklist
      ensures blacklist == Cleaned(old(blacklist), cutoff)
      ensures deleted == |old(blacklist)| - |blacklist|
    {
      ghost var before := blacklist;
      deleted := 0;
      var more := true;
      while more
        invariant blacklist.Keys <= before.Keys && (forall j | j in blacklist :: blacklist[j] == before[j])
        invariant forall j | j in before && j !in blacklist :: before[j].expiresAt < cutoff
        invariant deleted == |before| - |blacklist|
        invariant !more ==> forall j | j in blacklist :: blacklist[j].expiresAt >= cutoff
        decreases more, |blacklist|
      {
        var expired := set j | j in blacklist && blacklist[j].expiresAt < cutoff;
        var ids := PickBatch(expired, BATCH_SIZE);
        if ids == {} {
          assert forall j | j in blacklist :: j !in expired;
          break;
        }
        RemoveCount(blacklist, ids);
        blacklist := map j | j in blacklist && j !in ids :: blacklist[j];
        deleted := deleted + |ids|;
        more := |ids| == BATCH_SIZE;
      }
      assert blacklist == Cleaned(before, cutoff);
    }
  }

  const BATCH_SIZE: nat := 500

  /** Any `limit` elements of a set, or all of them. */
  method PickBatch<T(==)>(from: set<T>, limit: nat) returns (ids: set<T>)
    ensures ids <= from
    ensures |ids| <= limit && (|ids| < limit ==> ids == from)
  {
    ids := {};
    var rest := from;
    while rest != {} && |ids| < limit
      invariant ids + rest == from && ids !! rest && |ids| <= limit
      decreases |rest|
    {
      var x :| x in rest;
      ids, rest := ids + {x}, rest - {x};
    }
  }

  lemma RemoveCount(bl: Blacklist, ids: set<Jti>)
    requires ids <= bl.Keys
    ensures |map j | j in bl && j !in ids :: bl[j]| == |bl| - |ids|
  {
    var rest := map j | j in bl && j !in ids :: bl[j];
    assert rest.Keys == bl.Keys - ids;
    assert |rest.Keys| == |rest| && |bl.Keys| == |bl|;
  }
}
