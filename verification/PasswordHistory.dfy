/** Password changes and resets with a bounded history: src/auth/auth.service.ts. A salted hash is
    modelled by the password and the salt, so that comparing answers exactly for the hashed password. */
module PasswordHistory {
  import opened Wrappers

  datatype Hash = Hash(password: string, salt: nat)

  /** A history row; rows are kept in the order of `createdAt`. */
  datatype Row = Row(id: nat, user: string, hash: Hash)

  datatype Token = Token(user: string, expiresAt: int, used: bool)

  /** `passwords` has every user; one without a password signs in elsewhere. */
  datatype State = State(passwords: map<string, Option<Hash>>, rows: seq<Row>, nextId: nat, tokens: map<string, Token>)

  const EMPTY := State(map[], [], 0, map[])

  const DEFAULT_LIMIT: nat := 5

  datatype Result =
    | Done | UserNotFound | WrongPassword | AgainstPolicy | Reused
    | TokenInvalid | TokenUsed | TokenExpired | AccountBlocked

  datatype Event =
    | Register(user: string, password: string, salt: nat)
    | SignUpElsewhere(user: string)  // a user without a password
    | Change(user: string, current: string, password: string, salt: nat, meetsPolicy: bool)
    | IssueToken(token: string, user: string, expiresAt: int)
    | Reset(token: string, password: string, salt: nat, meetsPolicy: bool, blocked: bool, now: int)

  /** The rows of a user, newest first. */
  function Newest(rows: seq<Row>, user: string): seq<Row> {
    if rows == [] then []
    else
      var r := rows[|rows| - 1];
      if r.user == user then [r] + Newest(rows[..|rows| - 1], user) else Newest(rows[..|rows| - 1], user)
  }

  function Take(rows: seq<Row>, n: nat): seq<Row> { if |rows| <= n then rows else rows[..n] }

  function Skip(rows: seq<Row>, n: nat): seq<Row> { if |rows| <= n then [] else rows[n..] }

  function Without(rows: seq<Row>, ids: set<nat>): seq<Row> {
    if rows == [] then []
    else
      var r := rows[|rows| - 1];
      Without(rows[..|rows| - 1], ids) + if r.id in ids then [] else [r]
  }

  function Ids(rows: seq<Row>): set<nat> { set r | r in rows :: r.id }

  predicate Matches(password: string, rows: seq<Row>) {
    exists i | 0 <= i < |rows| :: rows[i].hash.password == password
  }

  /** The rows without those of the user beyond the newest n. */
  function Kept(rows: seq<Row>, user: string, n: nat): seq<Row> {
    Without(rows, Ids(Skip(Newest(rows, user), n)))
  }

  /** `recordPasswordHistory`: one more row, and the user's rows beyond the limit deleted. */
  function Recorded(rows: seq<Row>, row: Row, limit: nat): seq<Row> {
    Kept(rows + [row], row.user, limit)
  }

  function WithPassword(s: State, user: string, hash: Hash, limit: nat): State {
    s.(passwords := s.passwords[user := Some(hash)], rows := Recorded(s.rows, Row(s.nextId, user, hash), limit),
       nextId := s.nextId + 1)
  }

  function PolicyResult(s: State, user: string, password: string, meetsPolicy: bool, limit: nat): Result {
    if !meetsPolicy then AgainstPolicy
    else if Matches(password, Take(Newest(s.rows, user), limit)) then Reused
    else Done
  }

  function ChangeResult(s: State, user: string, current: string, password: string, meetsPolicy: bool, limit: nat)
    : Result
  {
    if user !in s.passwords then UserNotFound
    else if s.passwords[user].None? || s.passwords[user].value.password != current then WrongPassword
    else PolicyResult(s, user, password, meetsPolicy, limit)
  }

  function ResetResult(s: State, token: string, password: string, meetsPolicy: bool, blocked: bool, now: int,
                       limit: nat): Result
  {
    if token !in s.tokens then TokenInvalid
    else if s.tokens[token].used then TokenUsed
    else if s.tokens[token].expiresAt < now then TokenExpired
    else if blocked then AccountBlocked
    else PolicyResult(s, s.tokens[token].user, password, meetsPolicy, limit)
  }

  function Step(s: State, e: Event, limit: nat): State {
    match e
    case Register(user, password, salt) =>
      if user in s.passwords then s
      else
        var hash := Hash(password, salt);
        s.(passwords := s.passwords[user := Some(hash)], rows := s.rows + [Row(s.nextId, user, hash)],
           nextId := s.nextId + 1)
    case SignUpElsewhere(user) =>
      if user in s.passwords then s else s.(passwords := s.passwords[user := None])
    case Change(user, current, password, salt, meetsPolicy) =>
      if ChangeResult(s, user, current, password, meetsPolicy, limit) != Done then s
      else WithPassword(s, user, Hash(password, salt), limit)
    case IssueToken(token, user, expiresAt) =>
      if token in s.tokens || user !in s.passwords then s
      else s.(tokens := s.tokens[token := Token(user, expiresAt, false)])
    case Reset(token, password, salt, meetsPolicy, blocked, now) =>
      if ResetResult(s, token, password, meetsPolicy, blocked, now, limit) != Done then s
      else
        WithPassword(s, s.tokens[token].user, Hash(password, salt), limit)
          .(tokens := s.tokens[token := s.tokens[token].(used := true)])
  }

  // --- the service -----------------------------------------------------------------------------

  class AuthService {
    var passwords: map<string, Option<Hash>>
    var rows: seq<Row>
    var nextId: nat
    var tokens: map<string, Token>
    /** `PASSWORD_HISTORY_LIMIT` as a whole number; `None` if it is not a number. */
    const configured: Option<int>

    function Current(): State
      reads this
    {
      State(passwords, rows, nextId, tokens)
    }

    constructor (configured: Option<int>)
      ensures Current() == EMPTY && this.configured == configured
    {
      this.configured, passwords, rows, nextId, tokens := configured, map[], [], 0, map[];
    }

    function HistoryLimit(): (limit: nat)
      ensures configured.Some? && configured.value > 0 ==> limit == configured.value
      ensures configured.None? || configured.value <= 0 ==> limit == 5
    {
      if configured.Some? && configured.value > 0 then configured.value else DEFAULT_LIMIT
    }

    method IsReused(password: string, recent: seq<Row>) returns (reused: bool)
      ensures reused <==> Matches(password, recent)
    {
      reused := false;
      for i := 0 to |recent|
        invariant reused <==> exists k | 0 <= k < i :: recent[k].hash.password == password
      {
        if recent[i].hash.password == password { reused := true; }
      }
    }

    method RecordPasswordHistory(user: string, hash: Hash)
      modifies this`rows, this`nextId
      ensures rows == Recorded(old(rows), Row(old(nextId), user, hash), HistoryLimit())
      ensures nextId == old(nextId) + 1
    {
      rows := rows + [Row(nextId, user, hash)];
      nextId := nextId + 1;
      var expired := Skip(Newest(rows, user), HistoryLimit());
      if |expired| > 0 {
        rows := Without(rows, Ids(expired));
      } else {
        assert Ids(expired) == {};
        WithoutNone(rows);
      }
    }

    method ChangePassword(user: string, current: string, password: string, salt: nat, meetsPolicy: bool)
      returns (result: Result)
      modifies this
      ensures result == ChangeResult(old(Current()), user, current, password, meetsPolicy, HistoryLimit())
      ensures Current() == Step(old(Current()), Change(user, current, password, salt, meetsPolicy), HistoryLimit())
    {
      if user !in passwords { return UserNotFound; }
      if passwords[user].None? || passwords[user].value.password != current { return WrongPassword; }
      if !meetsPolicy { return AgainstPolicy; }
      var reused := IsReused(password, Take(Newest(rows, user), HistoryLimit()));
      if reused { return Reused; }
      passwords := passwords[user := Some(Hash(password, salt))];
      RecordPasswordHistory(user, Hash(password, salt));
      return Done;
    }

    method ResetPassword(token: string, password: string, salt: nat, meetsPolicy: bool, blocked: bool, now: int)
      returns (result: Result)
      modifies this
      ensures result == ResetResult(old(Current()), token, password, meetsPolicy, blocked, now, HistoryLimit())
      ensures Current() == Step(old(Current()), Reset(token, password, salt, meetsPolicy, blocked, now), HistoryLimit())
    {
      if token !in tokens { return TokenInvalid; }
      if tokens[token].used { return TokenUsed; }
      if tokens[token].expiresAt < now { return TokenExpired; }
      if blocked { return AccountBlocked; }
      if !meetsPolicy { return AgainstPolicy; }
      var user := tokens[token].user;
      var reused := IsReused(password, Take(Newest(rows, user), HistoryLimit()));
      if reused { return Reused; }
      passwords := passwords[user := Some(Hash(password, salt))];
      tokens := tokens[token := tokens[token].(used := true)];
      RecordPasswordHistory(user, Hash(password, salt));
      return Done;
    }
  }

  // --- the rows that recording keeps -----------------------------------------------------------

  predicate Unique(rows: seq<Row>, nextId: nat) {
    && (forall i, j | 0 <= i < j < |rows| :: rows[i].id != rows[j].id)
    && (forall i | 0 <= i < |rows| :: rows[i].id < nextId)
  }

  lemma {:induction false} WithoutNone(rows: seq<Row>)
    ensures Without(rows, {}) == rows
  {
    if rows != [] { WithoutNone(rows[..|rows| - 1]); }
  }

  lemma {:induction false} NewestAreRows(rows: seq<Row>, user: string)
    ensures forall r | r in Newest(rows, user) :: r in rows && r.user == user
  {
    if rows != [] { NewestAreRows(rows[..|rows| - 1], user); }
  }

  lemma Front(rows: seq<Row>, nextId: nat)
    requires rows != [] && Unique(rows, nextId)
    ensures var rest, r := rows[..|rows| - 1], rows[|rows| - 1];
            && Unique(rest, nextId) && rows == rest + [r] && forall q | q in rest :: q.id != r.id
  {
  }

  lemma Appended(rows: seq<Row>, r: Row, nextId: nat)
    requires Unique(rows, nextId) && r.id < nextId && forall q | q in rows :: q.id != r.id
    ensures Unique(rows + [r], nextId)
  {
  }

  lemma More(rows: seq<Row>, r: Row, user: string, ids: set<nat>)
    ensures Newest(rows + [r], user) == if r.user == user then [r] + Newest(rows, user) else Newest(rows, user)
    ensures Without(rows + [r], ids) == if r.id in ids then Without(rows, ids) else Without(rows, ids) + [r]
  {
    assert (rows + [r])[..|rows|] == rows;
  }

  lemma {:induction false} WithoutKeepsUnique(rows: seq<Row>, nextId: nat, ids: set<nat>)
    requires Unique(rows, nextId)
    ensures Unique(Without(rows, ids), nextId) && forall r | r in Without(rows, ids) :: r in rows
  {
    if rows != [] {
      hide Unique;
      var rest, r := rows[..|rows| - 1], rows[|rows| - 1];
      Front(rows, nextId);
      WithoutKeepsUnique(rest, nextId, ids);
      More(rest, r, r.user, ids);
      if r.id !in ids {
        assert r.id < nextId by { LastBelow(rows, nextId); }
        Appended(Without(rest, ids), r, nextId);
      }
    }
  }

  lemma LastBelow(rows: seq<Row>, nextId: nat)
    requires rows != [] && Unique(rows, nextId)
    ensures rows[|rows| - 1].id < nextId
  {
  }

  lemma {:induction false} WithoutAbsent(rows: seq<Row>, ids: set<nat>, id: nat)
    requires forall r | r in rows :: r.id != id
    ensures Without(rows, ids + {id}) == Without(rows, ids)
  {
    if rows != [] {
      assert rows[|rows| - 1] in rows;
      WithoutAbsent(rows[..|rows| - 1], ids, id);
    }
  }

  lemma SkipMore(r: Row, rows: seq<Row>, n: nat)
    ensures Skip([r] + rows, n) == if n > 0 then Skip(rows, n - 1) else [r] + Skip(rows, 0)
    ensures Take([r] + rows, n) == if n > 0 then [r] + Take(rows, n - 1) else []
    ensures Take(rows, 0) == []
  {
  }

  lemma OtherRowKept(rest: seq<Row>, r: Row, user: string, n: nat)
    requires r.user != user && forall q | q in rest :: q.id != r.id
    ensures Kept(rest + [r], user, n) == Kept(rest, user, n) + [r]
  {
    hide Newest, Without;
    NewestAreRows(rest, user);
    More(rest, r, user, Ids(Skip(Newest(rest, user), n)));
  }

  lemma NewRowKept(rest: seq<Row>, r: Row, user: string, n: nat)
    requires r.user == user && n > 0 && forall q | q in rest :: q.id != r.id
    ensures Kept(rest + [r], user, n) == Kept(rest, user, n - 1) + [r]
  {
    hide Newest, Without;
    NewestAreRows(rest, user);
    More(rest, r, user, Ids(Skip(Newest(rest, user), n - 1)));
    SkipMore(r, Newest(rest, user), n);
  }

  lemma NoRowKept(rest: seq<Row>, r: Row, user: string)
    requires r.user == user && forall q | q in rest :: q.id != r.id
    ensures Kept(rest + [r], user, 0) == Kept(rest, user, 0)
  {
    hide Newest, Without;
    var older := Skip(Newest(rest, user), 0);
    SkipMore(r, Newest(rest, user), 0);
    assert Ids([r] + older) == Ids(older) + {r.id};
    More(rest, r, user, Ids([r] + older));
    WithoutAbsent(rest, Ids(older), r.id);
  }

  predicate KeepsNewest(rows: seq<Row>, user: string, n: nat, other: string) {
    Newest(Kept(rows, user, n), other) == if other == user then Take(Newest(rows, user), n) else Newest(rows, other)
  }

  lemma KeepsWithOther(rest: seq<Row>, r: Row, user: string, n: nat, other: string)
    requires r.user != user && (forall q | q in rest :: q.id != r.id) && KeepsNewest(rest, user, n, other)
    ensures KeepsNewest(rest + [r], user, n, other)
  {
    hide Kept, Take;
    More(rest, r, other, {});
    OtherRowKept(rest, r, user, n);
    More(Kept(rest, user, n), r, other, {});
  }

  lemma KeepsWithNew(rest: seq<Row>, r: Row, user: string, n: nat, other: string)
    requires r.user == user && n > 0 && (forall q | q in rest :: q.id != r.id)
    requires KeepsNewest(rest, user, n - 1, other)
    ensures KeepsNewest(rest + [r], user, n, other)
  {
    hide Kept, Take, Skip;
    More(rest, r, other, {});
    NewRowKept(rest, r, user, n);
    More(Kept(rest, user, n - 1), r, other, {});
    SkipMore(r, Newest(rest, user), n);
  }

  lemma KeepsWithNone(rest: seq<Row>, r: Row, user: string, other: string)
    requires r.user == user && (forall q | q in rest :: q.id != r.id) && KeepsNewest(rest, user, 0, other)
    ensures KeepsNewest(rest + [r], user, 0, other)
  {
    hide Kept, Skip;
    More(rest, r, other, {});
    NoRowKept(rest, r, user);
  }

  /** Deleting a user's rows beyond the newest n leaves the newest n, and every row of another user. */
  lemma {:induction false} NewestKept(rows: seq<Row>, nextId: nat, user: string, n: nat, other: string)
    requires Unique(rows, nextId)
    ensures KeepsNewest(rows, user, n, other)
  {
    if rows != [] {
      hide Unique, KeepsNewest;
      var rest, r := rows[..|rows| - 1], rows[|rows| - 1];
      Front(rows, nextId);
      if r.user != user {
        NewestKept(rest, nextId, user, n, other);
        KeepsWithOther(rest, r, user, n, other);
      } else if n > 0 {
        NewestKept(rest, nextId, user, n - 1, other);
        KeepsWithNew(rest, r, user, n, other);
      } else {
        NewestKept(rest, nextId, user, 0, other);
        KeepsWithNone(rest, r, user, other);
      }
    }
  }

  // --- runs ------------------------------------------------------------------------------------

  function After(events: seq<Event>, limit: nat): State {
    if events == [] then EMPTY else Step(After(events[..|events| - 1], limit), events[|events| - 1], limit)
  }

  /** The password that an event sets for the user, if it sets one. */
  function SetFor(s: State, e: Event, user: string, limit: nat): Option<string> {
    match e
    case Register(u, password, _) => if u == user && u !in s.passwords then Some(password) else None
    case Change(u, current, password, _, meetsPolicy) =>
      if u == user && ChangeResult(s, u, current, password, meetsPolicy, limit) == Done then Some(password) else None
    case Reset(token, password, _, meetsPolicy, blocked, now) =>
      if ResetResult(s, token, password, meetsPolicy, blocked, now, limit) == Done && s.tokens[token].user == user
      then Some(password) else None
    case _ => None
  }

  /** Every password the user ever had, oldest first. */
  function AllPasswords(events: seq<Event>, user: string, limit: nat): seq<string> {
    if events == [] then []
    else
      var rest, e := events[..|events| - 1], events[|events| - 1];
      var changed := SetFor(After(rest, limit), e, user, limit);
      AllPasswords(rest, user, limit) + if changed.Some? then [changed.value] else []
  }

  /** The rows hold the last passwords, newest first, as many as the limit allows. */
  predicate HoldsLast(rows: seq<Row>, passwords: seq<string>, limit: nat) {
    && |rows| == (if |passwords| <= limit then |passwords| else limit)
    && forall i | 0 <= i < |rows| :: rows[i].hash.password == passwords[|passwords| - 1 - i]
  }

  /** The stored password is the last one, and only known users have one. */
  predicate CurrentIsLast(s: State, user: string, passwords: seq<string>) {
    if user in s.passwords && s.passwords[user].Some? then
      passwords != [] && s.passwords[user].value.password == passwords[|passwords| - 1]
    else passwords == []
  }

  /** Any limit + 1 consecutive passwords are different from each other. */
  predicate NoReuse(passwords: seq<string>, limit: nat) {
    forall i, j | 0 <= i < j < |passwords| && j - i <= limit :: passwords[i] != passwords[j]
  }

  /** The password is one of the last `limit`. */
  predicate AmongLast(passwords: seq<string>, limit: nat, password: string) {
    exists i | 0 <= i < |passwords| && i >= |passwords| - limit :: passwords[i] == password
  }

  predicate Inv(s: State, user: string, passwords: seq<string>, limit: nat) {
    && Unique(s.rows, s.nextId)
    && HoldsLast(Newest(s.rows, user), passwords, limit)
    && CurrentIsLast(s, user, passwords)
    && NoReuse(passwords, limit)
    && forall t | t in s.tokens :: s.tokens[t].user in s.passwords
  }

  lemma RecordedRows(rows: seq<Row>, row: Row, limit: nat, user: string)
    requires Unique(rows, row.id)
    ensures Unique(Recorded(rows, row, limit), row.id + 1)
    ensures Newest(Recorded(rows, row, limit), user) ==
      if user == row.user then Take([row] + Newest(rows, user), limit) else Newest(rows, user)
  {
    hide Newest, Without;
    var more := rows + [row];
    OneMoreRow(rows, row);
    NewestKept(more, row.id + 1, row.user, limit, user);
    WithoutKeepsUnique(more, row.id + 1, Ids(Skip(Newest(more, row.user), limit)));
    More(rows, row, user, {});
  }

  lemma LastMoves(rows: seq<Row>, passwords: seq<string>, limit: nat, row: Row)
    requires limit > 0 && HoldsLast(rows, passwords, limit) && NoReuse(passwords, limit)
    requires !Matches(row.hash.password, Take(rows, limit))
    ensures HoldsLast(Take([row] + rows, limit), passwords + [row.hash.password], limit)
    ensures NoReuse(passwords + [row.hash.password], limit)
  {
    hide HoldsLast, NoReuse, Matches, Take, AmongLast;
    OneMoreDistinct(rows, passwords, limit, row.hash.password);
    LastHeld(rows, passwords, limit, row);
    MatchedExactly(rows, passwords, limit, row.hash.password);
  }

  lemma OneMoreDistinct(rows: seq<Row>, passwords: seq<string>, limit: nat, password: string)
    requires NoReuse(passwords, limit)
    ensures !AmongLast(passwords, limit, password) ==> NoReuse(passwords + [password], limit)
  {
  }

  lemma LastHeld(rows: seq<Row>, passwords: seq<string>, limit: nat, row: Row)
    requires limit > 0 && HoldsLast(rows, passwords, limit)
    ensures HoldsLast(Take([row] + rows, limit), passwords + [row.hash.password], limit)
  {
  }

  /** The rows match exactly the last `limit` passwords. */
  lemma MatchedExactly(rows: seq<Row>, passwords: seq<string>, limit: nat, password: string)
    requires HoldsLast(rows, passwords, limit)
    ensures Matches(password, Take(rows, limit)) <==> AmongLast(passwords, limit, password)
  {
    var n := |passwords|;
    if i :| 0 <= i < n && i >= n - limit && passwords[i] == password {
      assert Take(rows, limit)[n - 1 - i].hash.password == passwords[i];
    }
    if k :| 0 <= k < |Take(rows, limit)| && Take(rows, limit)[k].hash.password == password {
      assert rows[k].hash.password == passwords[n - 1 - k];
    }
  }

  /** A password that is accepted for some user keeps everything said of every user. */
  lemma AcceptedKeepsInv(s: State, owner: string, hash: Hash, limit: nat, user: string, passwords: seq<string>)
    requires limit > 0 && Inv(s, user, passwords, limit)
    requires !Matches(hash.password, Take(Newest(s.rows, owner), limit))
    ensures Inv(WithPassword(s, owner, hash, limit), user,
                passwords + if owner == user then [hash.password] else [], limit)
  {
    hide Newest, Unique, HoldsLast, NoReuse, Recorded, Matches, Take;
    var row := Row(s.nextId, owner, hash);
    RecordedRows(s.rows, row, limit, user);
    if owner == user {
      LastMoves(Newest(s.rows, user), passwords, limit, row);
    } else {
      assert passwords + [] == passwords;
    }
  }

  lemma OneMoreRow(rows: seq<Row>, row: Row)
    requires Unique(rows, row.id)
    ensures Unique(rows + [row], row.id + 1)
  {
  }

  lemma FirstPassword(rows: seq<Row>, row: Row, limit: nat)
    requires limit > 0 && HoldsLast(rows, [], limit)
    ensures HoldsLast([row] + rows, [] + [row.hash.password], limit)
    ensures NoReuse([] + [row.hash.password], limit)
  {
  }

  lemma RegisteredKeepsInv(s: State, owner: string, password: string, salt: nat, limit: nat, user: string,
                           passwords: seq<string>)
    requires limit > 0 && Inv(s, user, passwords, limit) && owner !in s.passwords
    ensures Inv(Step(s, Register(owner, password, salt), limit), user,
                passwords + if owner == user then [password] else [], limit)
  {
    hide Newest, Without, Unique, HoldsLast, NoReuse;
    var row := Row(s.nextId, owner, Hash(password, salt));
    OneMoreRow(s.rows, row);
    More(s.rows, row, user, {});
    assert passwords + [] == passwords;
    if owner == user { FirstPassword(Newest(s.rows, user), row, limit); }
  }

  lemma StepKeepsInv(s: State, e: Event, limit: nat, user: string, passwords: seq<string>)
    requires limit > 0 && Inv(s, user, passwords, limit)
    ensures var changed := SetFor(s, e, user, limit);
            Inv(Step(s, e, limit), user, passwords + if changed.Some? then [changed.value] else [], limit)
  {
    hide Newest, Unique, HoldsLast, NoReuse, Recorded, Matches, Take;
    assert passwords + [] == passwords;
    match e
    case Register(owner, password, salt) =>
      if owner !in s.passwords { RegisteredKeepsInv(s, owner, password, salt, limit, user, passwords); }
    case SignUpElsewhere(owner) =>
    case Change(owner, current, password, salt, meetsPolicy) =>
      if ChangeResult(s, owner, current, password, meetsPolicy, limit) == Done {
        AcceptedKeepsInv(s, owner, Hash(password, salt), limit, user, passwords);
      }
    case IssueToken(token, owner, expiresAt) =>
    case Reset(token, password, salt, meetsPolicy, blocked, now) =>
      if ResetResult(s, token, password, meetsPolicy, blocked, now, limit) == Done {
        AcceptedKeepsInv(s, s.tokens[token].user, Hash(password, salt), limit, user, passwords);
      }
  }

  lemma {:induction false} RunKeepsInv(events: seq<Event>, limit: nat, user: string)
    requires limit > 0
    ensures Inv(After(events, limit), user, AllPasswords(events, user, limit), limit)
  {
    if events != [] {
      hide Step, SetFor, Inv;
      var rest, e := events[..|events| - 1], events[|events| - 1];
      RunKeepsInv(rest, limit, user);
      StepKeepsInv(After(rest, limit), e, limit, user, AllPasswords(rest, user, limit));
    }
  }

  /** In every run the stored history is the last passwords of the user, and any limit + 1 passwords in a
      row are different. */
  lemma HistoryIsLastPasswords(events: seq<Event>, limit: nat, user: string)
    requires limit > 0
    ensures HoldsLast(Newest(After(events, limit).rows, user), AllPasswords(events, user, limit), limit)
    ensures NoReuse(AllPasswords(events, user, limit), limit)
    ensures CurrentIsLast(After(events, limit), user, AllPasswords(events, user, limit))
  {
    RunKeepsInv(events, limit, user);
  }

  /** A password that meets the policy is turned down exactly when it is one of the last `limit`. */
  lemma TurnedDownExactly(events: seq<Event>, limit: nat, user: string, password: string)
    requires limit > 0
    ensures PolicyResult(After(events, limit), user, password, true, limit) == Reused <==>
      AmongLast(AllPasswords(events, user, limit), limit, password)
  {
    hide HoldsLast, NoReuse, CurrentIsLast, Take, Matches, AmongLast;
    HistoryIsLastPasswords(events, limit, user);
    var rows, p := Newest(After(events, limit).rows, user), AllPasswords(events, user, limit);
    MatchedExactly(rows, p, limit, password);
  }

  /** How many resets with the token succeed. */
  function Resets(events: seq<Event>, token: string, limit: nat): nat {
    if events == [] then 0
    else
      var rest, e := events[..|events| - 1], events[|events| - 1];
      Resets(rest, token, limit)
        + if e.Reset? && e.token == token
             && ResetResult(After(rest, limit), token, e.password, e.meetsPolicy, e.blocked, e.now, limit) == Done
          then 1 else 0
  }

  /** A used token stays used and resets nothing; a reset uses its token. */
  lemma StepUsesToken(s: State, e: Event, token: string, limit: nat)
    ensures var t := Step(s, e, limit);
      var done := e.Reset? && e.token == token
                  && ResetResult(s, token, e.password, e.meetsPolicy, e.blocked, e.now, limit) == Done;
      && (token in s.tokens && s.tokens[token].used ==> token in t.tokens && t.tokens[token].used && !done)
      && (done ==> token in t.tokens && t.tokens[token].used)
  {
    hide PolicyResult, ChangeResult, Recorded;
  }

  /** In every run a reset token sets a password at most once. */
  lemma {:induction false} TokenResetsOnce(events: seq<Event>, token: string, limit: nat)
    ensures Resets(events, token, limit) <= 1
    ensures Resets(events, token, limit) == 1 ==>
      token in After(events, limit).tokens && After(events, limit).tokens[token].used
  {
    if events != [] {
      hide Step, ResetResult;
      var rest, e := events[..|events| - 1], events[|events| - 1];
      TokenResetsOnce(rest, token, limit);
      StepUsesToken(After(rest, limit), e, token, limit);
    }
  }

  // --- the answers, from the history -----------------------------------------------------------

  predicate SignsUp(e: Event, user: string) { (e.Register? || e.SignUpElsewhere?) && e.user == user }

  /** The user has signed up, here or elsewhere. */
  predicate SignedUp(events: seq<Event>, user: string) {
    events != [] && (SignsUp(events[|events| - 1], user) || SignedUp(events[..|events| - 1], user))
  }

  lemma StepKnows(s: State, e: Event, limit: nat, user: string)
    requires forall t | t in s.tokens :: s.tokens[t].user in s.passwords
    ensures user in Step(s, e, limit).passwords <==> user in s.passwords || SignsUp(e, user)
  {
    hide PolicyResult, Recorded;
  }

  lemma {:induction false} KnownIsHistory(events: seq<Event>, limit: nat, user: string)
    requires limit > 0
    ensures user in After(events, limit).passwords <==> SignedUp(events, user)
  {
    if events != [] {
      hide Step, Newest, HoldsLast, NoReuse, Unique, SignsUp;
      var rest, e := events[..|events| - 1], events[|events| - 1];
      KnownIsHistory(rest, limit, user);
      RunKeepsInv(rest, limit, user);
      StepKnows(After(rest, limit), e, limit, user);
    }
  }

  datatype Issue = Issue(user: string, expiresAt: int)

  /** For whom, and until when, the token was first issued to a user who had signed up. */
  function IssuedAs(events: seq<Event>, token: string): Option<Issue> {
    if events == [] then None
    else
      var rest, e := events[..|events| - 1], events[|events| - 1];
      var before := IssuedAs(rest, token);
      if before.Some? then before
      else if e.IssueToken? && e.token == token && SignedUp(rest, e.user) then Some(Issue(e.user, e.expiresAt))
      else None
  }

  lemma StepIssues(s: State, e: Event, limit: nat, token: string)
    ensures var t := Step(s, e, limit);
      && (token in t.tokens <==>
            token in s.tokens || (e.IssueToken? && e.token == token && e.user in s.passwords))
      && (token in t.tokens ==>
            t.tokens[token] ==
              if token !in s.tokens then Token(e.user, e.expiresAt, false)
              else if e.Reset? && e.token == token
                      && ResetResult(s, token, e.password, e.meetsPolicy, e.blocked, e.now, limit) == Done
              then s.tokens[token].(used := true)
              else s.tokens[token])
  {
    hide PolicyResult, ChangeResult, Recorded;
  }

  /** In every run a reset token is what it was issued as, and is used exactly if a reset with it succeeded. */
  lemma {:induction false} TokensAreHistory(events: seq<Event>, limit: nat, token: string)
    requires limit > 0
    ensures var s, issued := After(events, limit), IssuedAs(events, token);
      && (token in s.tokens <==> issued.Some?)
      && (issued.Some? ==>
            s.tokens[token] == Token(issued.value.user, issued.value.expiresAt, Resets(events, token, limit) > 0))
      && (issued.None? ==> Resets(events, token, limit) == 0)
  {
    if events != [] {
      hide Step;
      var rest, e := events[..|events| - 1], events[|events| - 1];
      TokensAreHistory(rest, limit, token);
      if e.IssueToken? { KnownIsHistory(rest, limit, e.user); }
      StepIssues(After(rest, limit), e, limit, token);
      hide PolicyResult;
    }
  }

  /** The current password is the last one set. */
  predicate IsCurrent(passwords: seq<string>, password: string) {
    passwords != [] && passwords[|passwords| - 1] == password
  }

  /** When each answer to a change is given, from the history of the user. */
  lemma ChangeAnswers(events: seq<Event>, limit: nat, user: string, current: string, password: string,
                      meetsPolicy: bool)
    requires limit > 0
    ensures var a := ChangeResult(After(events, limit), user, current, password, meetsPolicy, limit);
      var passwords := AllPasswords(events, user, limit);
      var right := SignedUp(events, user) && IsCurrent(passwords, current);
      && (a == UserNotFound <==> !SignedUp(events, user))
      && (a == WrongPassword <==> SignedUp(events, user) && !IsCurrent(passwords, current))
      && (a == AgainstPolicy <==> right && !meetsPolicy)
      && (a == Reused <==> right && meetsPolicy && AmongLast(passwords, limit, password))
      && (a == Done <==> right && meetsPolicy && !AmongLast(passwords, limit, password))
  {
    hide AllPasswords, HoldsLast, NoReuse, Take, Matches, AmongLast, SignedUp;
    KnownIsHistory(events, limit, user);
    HistoryIsLastPasswords(events, limit, user);
    TurnedDownExactly(events, limit, user, password);
  }

  /** When each answer to a reset is given, from the history of the token and of its user. */
  lemma ResetAnswers(events: seq<Event>, limit: nat, token: string, password: string, meetsPolicy: bool, blocked: bool,
                     now: int)
    requires limit > 0
    ensures var a := ResetResult(After(events, limit), token, password, meetsPolicy, blocked, now, limit);
      var issued := IssuedAs(events, token);
      var good := issued.Some? && Resets(events, token, limit) == 0 && now <= issued.value.expiresAt;
      && (a == TokenInvalid <==> issued.None?)
      && (a == TokenUsed <==> issued.Some? && Resets(events, token, limit) == 1)
      && (a == TokenExpired <==>
            issued.Some? && Resets(events, token, limit) == 0 && issued.value.expiresAt < now)
      && (a == AccountBlocked <==> good && blocked)
      && (a == AgainstPolicy <==> good && !blocked && !meetsPolicy)
      && (a == Reused <==>
            && good && !blocked && meetsPolicy
            && AmongLast(AllPasswords(events, issued.value.user, limit), limit, password))
      && (a == Done <==>
            && good && !blocked && meetsPolicy
            && !AmongLast(AllPasswords(events, issued.value.user, limit), limit, password))
  {
    hide AllPasswords, Take, Matches, AmongLast, Resets, IssuedAs;
    TokensAreHistory(events, limit, token);
    TokenResetsOnce(events, token, limit);
    var issued := IssuedAs(events, token);
    if issued.Some? { TurnedDownExactly(events, limit, issued.value.user, password); }
  }
}
