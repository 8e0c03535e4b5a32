/** The DELETE/UPDATE check of scripts/validate-migrations.ts, which runs on the masked text: a keyword
    search at one parenthesis depth, outside quoted identifiers, and the loop over DML matches.

    The twelve destructive patterns are regular expressions; each is a parameter here, a function
    that counts its matches in a text. */
module SqlCheck {
  import opened SqlScanner
  import opened SqlScannerLaws
  import opened Text

  // --- quoted identifiers and depth, one character at a time ------------------------------------

  datatype Quote = Outside | Inside | Doubled

  function QuoteStep(s: string, i: nat, q: Quote): Quote
    requires i < |s|
  {
    match q
    case Outside => if s[i] == '"' then Inside else Outside
    case Inside => if s[i] != '"' then Inside else if Is(s, i + 1, '"') then Doubled else Outside
    case Doubled => Inside
  }

  function QuoteAt(s: string, i: nat): Quote
    requires i <= |s|
  {
    if i == 0 then Outside else QuoteStep(s, i - 1, QuoteAt(s, i - 1))
  }

  /** Character `i` is outside every quoted identifier. */
  predicate Plain(s: string, i: nat) {
    i < |s| && QuoteAt(s, i).Outside? && s[i] != '"'
  }

  /** The parenthesis depth after the first `n` characters. */
  function DepthAfter(s: string, n: nat): int
    requires n <= |s|
  {
    if n == 0 then 0
    else if !Plain(s, n - 1) then DepthAfter(s, n - 1)
    else if s[n - 1] == '(' then DepthAfter(s, n - 1) + 1
    else if s[n - 1] == ')' then DepthAfter(s, n - 1) - 1
    else DepthAfter(s, n - 1)
  }

  /** The upper-case keyword stands at `k` in any case, and ends at a word boundary. */
  predicate KeywordAt(s: string, k: nat, keyword: string) {
    && k + |keyword| <= |s|
    && (forall j :: 0 <= j < |keyword| ==> Upper(s[k + j]) == keyword[j])
    && !(k + |keyword| < |s| && IsWord(s[k + |keyword|]))
  }

  /** The depth a search from `startAt` compares against: 0 when `startAt` is inside an identifier. */
  function BaseDepth(s: string, startAt: nat): int {
    if Plain(s, startAt) then DepthAfter(s, startAt + 1) else 0
  }

  predicate TopLevelKeywordAt(s: string, keyword: string, startAt: nat, k: nat) {
    && startAt <= k && Plain(s, k) && DepthAfter(s, k + 1) == BaseDepth(s, startAt)
    && KeywordAt(s, k, keyword)
    && !(k > 0 && (IsWord(s[k - 1]) || s[k - 1] == '$'))
  }

  /** The keyword stands after `startAt`, outside quoted identifiers, at the depth of `startAt`. */
  predicate TopLevelKeyword(s: string, keyword: string, startAt: nat) {
    exists k | 0 <= k < |s| :: TopLevelKeywordAt(s, keyword, startAt, k)
  }

  lemma QuotedStep(s: string, i: nat)
    requires i < |s| && QuoteAt(s, i).Inside?
    ensures !Plain(s, i) && DepthAfter(s, i + 1) == DepthAfter(s, i)
    ensures s[i] == '"' && Is(s, i + 1, '"') ==>
      !Plain(s, i + 1) && QuoteAt(s, i + 2).Inside? && DepthAfter(s, i + 2) == DepthAfter(s, i)
    ensures s[i] == '"' && !Is(s, i + 1, '"') ==> QuoteAt(s, i + 1).Outside?
    ensures s[i] != '"' ==> QuoteAt(s, i + 1).Inside?
  {
  }

  /** Steps over a quoted identifier: no plain character inside, so the depth does not change. */
  method SkipQuoted(s: string, start: nat) returns (index: nat)
    requires start < |s| && QuoteAt(s, start).Outside? && s[start] == '"'
    ensures start < index <= |s| && (index < |s| ==> QuoteAt(s, index).Outside?)
    ensures DepthAfter(s, index) == DepthAfter(s, start)
    ensures forall k | start <= k < index :: !Plain(s, k)
  {
    index := start + 1;
    assert QuoteAt(s, index).Inside? && DepthAfter(s, index) == DepthAfter(s, start);
    hide QuoteAt, DepthAfter;
    while index < |s|
      invariant start < index <= |s| && QuoteAt(s, index).Inside?
      invariant DepthAfter(s, index) == DepthAfter(s, start)
      invariant forall k | start <= k < index :: !Plain(s, k)
    {
      QuotedStep(s, index);
      if s[index] == '"' && Is(s, index + 1, '"') {
        index := index + 2;
      } else if s[index] == '"' {
        index := index + 1;
        break;
      } else {
        index := index + 1;
      }
    }
  }

  method HasTopLevelKeyword(s: string, keyword: string, startAt: nat) returns (found: bool)
    ensures found == TopLevelKeyword(s, keyword, startAt)
  {
    var depth, baseDepth := 0, 0;
    var index := 0;
    while index < |s|
      invariant index <= |s| && (index < |s| ==> QuoteAt(s, index).Outside?)
      invariant depth == DepthAfter(s, index)
      invariant baseDepth == if startAt < index then BaseDepth(s, startAt) else 0
      invariant forall k | 0 <= k < index :: !TopLevelKeywordAt(s, keyword, startAt, k)
    {
      if s[index] == '"' {
        index := SkipQuoted(s, index);
        continue;
      }
      assert Plain(s, index);
      if s[index] == '(' { depth := depth + 1; }
      if s[index] == ')' { depth := depth - 1; }
      assert depth == DepthAfter(s, index + 1);
      if index == startAt { baseDepth := depth; }
      if index >= startAt && depth == baseDepth {
        if KeywordAt(s, index, keyword)
           && !(index > 0 && (IsWord(s[index - 1]) || s[index - 1] == '$')) {
          assert TopLevelKeywordAt(s, keyword, startAt, index);
          return true;
        }
      }
      index := index + 1;
    }
    return false;
  }

  // --- DML statements --------------------------------------------------------------------------

  function SpaceEnd(s: string, i: nat): (j: nat)
    requires i <= |s|
    ensures i <= j <= |s|
    ensures forall k :: i <= k < j ==> IsSpace(s[k])
    ensures j < |s| ==> !IsSpace(s[j])
    decreases |s| - i
  {
    if i < |s| && IsSpace(s[i]) then SpaceEnd(s, i + 1) else i
  }

  predicate PrefixAt(s: string, k: nat, word: string) {
    k + |word| <= |s| && forall j :: 0 <= j < |word| ==> Upper(s[k + j]) == word[j]
  }

  predicate BoundaryBefore(s: string, k: nat) {
    k == 0 || k > |s| || !IsWord(s[k - 1])
  }

  datatype Dml = NoDml | Delete(end: nat) | Update(end: nat)

  /** The match of the DML pattern that starts at `i`: DELETE, blanks, FROM; or UPDATE. */
  function DmlAt(s: string, i: nat): (d: Dml)
    ensures d.Delete? ==> i + 11 <= d.end <= |s|
    ensures d.Update? ==> i + 6 == d.end <= |s|
  {
    if !BoundaryBefore(s, i) then NoDml
    else if PrefixAt(s, i, "DELETE") && SpaceEnd(s, i + 6) > i + 6
            && KeywordAt(s, SpaceEnd(s, i + 6), "FROM") then Delete(SpaceEnd(s, i + 6) + 4)
    else if KeywordAt(s, i, "UPDATE") then Update(i + 6)
    else NoDml
  }

  /** A whole word in any case: `\bWORD\b`. */
  predicate WordIn(s: string, word: string) {
    exists k | 0 <= k <= |s| :: BoundaryBefore(s, k) && KeywordAt(s, k, word)
  }

  datatype Violation =
    | Pattern(description: string, count: nat)
    | DeleteWithoutWhere
    | UpdateWithoutWhere

  /** What the check reports for a match at `i`. The operation is compared with the text
      "DELETE FROM", so only a match with exactly one space between the words counts. */
  function FindingAt(s: string, i: nat): seq<Violation> {
    match DmlAt(s, i)
    case NoDml => []
    case Delete(end) =>
      if s[i + 6..end - 4] == " " && !TopLevelKeyword(s, "WHERE", i) then [DeleteWithoutWhere] else []
    case Update(end) =>
      if WordIn(s[end..], "SET") && !TopLevelKeyword(s, "WHERE", i) then [UpdateWithoutWhere] else []
  }

  /** The reports for every position before `n`, in order. */
  function FindingsBefore(s: string, n: nat): seq<Violation> {
    if n == 0 then [] else FindingsBefore(s, n - 1) + FindingAt(s, n - 1)
  }

  /** A match starts with the letter D or U. */
  lemma NotDmlLetter(s: string, k: nat)
    requires k < |s| && Upper(s[k]) != 'D' && Upper(s[k]) != 'U'
    ensures DmlAt(s, k).NoDml?
  {
    assert Upper(s[k + 0]) != "DELETE"[0] && Upper(s[k + 0]) != "UPDATE"[0];
  }

  /** Inside a word in upper case there is no word boundary. */
  lemma InsideWord(s: string, i: nat, word: string, k: nat)
    requires PrefixAt(s, i, word) && forall j :: 0 <= j < |word| ==> 'A' <= word[j] <= 'Z'
    requires i < k <= i + |word|
    ensures !BoundaryBefore(s, k)
  {
    assert Upper(s[i + (k - 1 - i)]) == word[k - 1 - i];
  }

  /** No DML match starts inside another one, so the search that resumes after each match sees
      every match. */
  lemma MatchesDoNotOverlap(s: string, i: nat, k: nat)
    requires !DmlAt(s, i).NoDml? && i < k < DmlAt(s, i).end
    ensures DmlAt(s, k).NoDml?
  {
    if DmlAt(s, i).Update? {
      InsideWord(s, i, "UPDATE", k);
    } else {
      var e := SpaceEnd(s, i + 6);
      if k <= i + 6 {
        InsideWord(s, i, "DELETE", k);
      } else if k < e {
        NotDmlLetter(s, k);
      } else if k == e {
        assert Upper(s[e + 0]) == "FROM"[0];
        NotDmlLetter(s, k);
      } else {
        assert PrefixAt(s, e, "FROM");
        InsideWord(s, e, "FROM", k);
      }
    }
  }

  lemma {:induction false} NothingInside(s: string, a: nat, b: nat)
    requires a <= b && forall k | a <= k < b :: DmlAt(s, k).NoDml?
    ensures FindingsBefore(s, b) == FindingsBefore(s, a)
  {
    hide DmlAt;
    if a < b {
      NothingInside(s, a, b - 1);
      assert FindingAt(s, b - 1) == [];
    }
  }

  lemma MatchSkipped(s: string, i: nat)
    requires !DmlAt(s, i).NoDml?
    ensures FindingsBefore(s, DmlAt(s, i).end) == FindingsBefore(s, i + 1)
  {
    hide DmlAt, FindingAt;
    var end := DmlAt(s, i).end;
    forall k | i < k < end ensures DmlAt(s, k).NoDml? { MatchesDoNotOverlap(s, i, k); }
    NothingInside(s, i + 1, end);
  }

  /** The loop over the DML matches of one statement, each search resuming where the last ended. */
  method CheckStatement(s: string) returns (violations: seq<Violation>)
    ensures violations == FindingsBefore(s, |s|)
  {
    hide DmlAt, TopLevelKeyword, WordIn;
    violations := [];
    var lastIndex := 0;
    while lastIndex < |s|
      invariant lastIndex <= |s|
      invariant violations == FindingsBefore(s, lastIndex)
    {
      var dml := DmlAt(s, lastIndex);
      if dml.NoDml? {
        assert FindingAt(s, lastIndex) == [];
        lastIndex := lastIndex + 1;
        continue;
      }
      var at := lastIndex;
      var hasWhere := HasTopLevelKeyword(s, "WHERE", at);
      if dml.Delete? && s[at + 6..dml.end - 4] == " " && !hasWhere {
        violations := violations + [DeleteWithoutWhere];
      } else if dml.Update? && WordIn(s[dml.end..], "SET") && !hasWhere {
        violations := violations + [UpdateWithoutWhere];
      }
      assert violations == FindingsBefore(s, at + 1);
      MatchSkipped(s, at);
      lastIndex := dml.end;
    }
  }

  /** `sql.split(';')`. */
  function Split(sql: string): (parts: seq<string>)
    ensures parts != []
  {
    if sql == [] then [""]
    else
      var rest := Split(sql[1..]);
      if sql[0] == ';' then [""] + rest else [[sql[0]] + rest[0]] + rest[1..]
  }

  type Patterns = seq<(string, string -> nat)>

  function PatternViolations(sql: string, patterns: Patterns): seq<Violation> {
    if patterns == [] then []
    else
      var n := |patterns| - 1;
      var count := patterns[n].1(sql);
      PatternViolations(sql, patterns[..n]) + if count > 0 then [Pattern(patterns[n].0, count)] else []
  }

  function StatementViolations(parts: seq<string>): seq<Violation> {
    if parts == [] then []
    else
      var n := |parts| - 1;
      StatementViolations(parts[..n]) + FindingsBefore(parts[n], |parts[n]|)
  }

  function Violations(sql: string, patterns: Patterns): seq<Violation> {
    PatternViolations(sql, patterns) + StatementViolations(Split(sql))
  }

  method CheckPatterns(sql: string, patterns: Patterns) returns (violations: seq<Violation>)
    ensures violations == PatternViolations(sql, patterns)
  {
    violations := [];
    for p := 0 to |patterns|
      invariant violations == PatternViolations(sql, patterns[..p])
    {
      var count := patterns[p].1(sql);
      assert patterns[..p + 1][..p] == patterns[..p];
      if count > 0 { violations := violations + [Pattern(patterns[p].0, count)]; }
    }
    assert patterns[..|patterns|] == patterns;
  }

  method CheckStatements(statements: seq<string>) returns (violations: seq<Violation>)
    ensures violations == StatementViolations(statements)
  {
    violations := [];
    for i := 0 to |statements|
      invariant violations == StatementViolations(statements[..i])
    {
      var found := CheckStatement(statements[i]);
      assert statements[..i + 1][..i] == statements[..i];
      violations := violations + found;
    }
    assert statements[..|statements|] == statements;
  }

  method CheckSqlForDestructiveChanges(content: string, patterns: Patterns)
    returns (violations: seq<Violation>)
    ensures violations == Violations(MaskOf(content), patterns)
  {
    hide MaskOf;
    var sql, _ := MaskSqlCommentsAndStrings(content);
    violations := CheckPatterns(sql, patterns);
    var found := CheckStatements(Split(sql));
    violations := violations + found;
  }

  // --- what the check promises -----------------------------------------------------------------

  /** A text and its mask have the same violations: nothing inside a comment, a string or a dollar
      quote can raise a violation or hide one. */
  lemma MaskedTextHasSameViolations(content: string, patterns: Patterns)
    ensures Violations(MaskOf(MaskOf(content)), patterns) == Violations(MaskOf(content), patterns)
  {
    MaskTwice(content);
  }

  lemma {:induction false} FindingsContain(s: string, n: nat, v: Violation)
    ensures v in FindingsBefore(s, n) <==> exists i | 0 <= i < n :: v in FindingAt(s, i)
  {
    hide FindingAt;
    if n > 0 {
      FindingsContain(s, n - 1, v);
      var before, last := FindingsBefore(s, n - 1), FindingAt(s, n - 1);
      assert v in before + last <==> v in before || v in last;
    }
  }

  /** The character at `j` closes the parentheses that `startAt` stands in, or comes after. */
  predicate Closes(s: string, startAt: nat, j: nat) {
    j < |s| && DepthAfter(s, j + 1) < BaseDepth(s, startAt)
  }

  /** From `startAt` to `k` the text does not leave the parentheses that `startAt` stands in. */
  predicate SameScope(s: string, startAt: nat, k: nat) {
    forall j | startAt <= j <= k :: !Closes(s, startAt, j)
  }

  /** The keyword stands in the statement that `startAt` belongs to, at its depth. */
  ghost predicate OwnKeyword(s: string, keyword: string, startAt: nat) {
    exists k | 0 <= k < |s| :: TopLevelKeywordAt(s, keyword, startAt, k) && SameScope(s, startAt, k)
  }

  /** The keyword stands at the depth of `startAt`, but after its parentheses were closed: it belongs to a
      sibling. */
  ghost predicate SiblingKeyword(s: string, keyword: string, startAt: nat) {
    exists k | 0 <= k < |s| :: TopLevelKeywordAt(s, keyword, startAt, k) && !SameScope(s, startAt, k)
  }

  /** The search for a keyword finds the statement's own one exactly, unless there is a sibling's and none
      of its own. It cannot go wrong if the depth never falls below that of the starting point. */
  lemma SearchFindsOwn(s: string, keyword: string, startAt: nat)
    ensures TopLevelKeyword(s, keyword, startAt) <==>
      OwnKeyword(s, keyword, startAt) || SiblingKeyword(s, keyword, startAt)
    ensures (TopLevelKeyword(s, keyword, startAt) <==> OwnKeyword(s, keyword, startAt)) <==>
      (SiblingKeyword(s, keyword, startAt) ==> OwnKeyword(s, keyword, startAt))
    ensures SameScope(s, startAt, |s|) ==> !SiblingKeyword(s, keyword, startAt)
  {
    hide TopLevelKeywordAt, DepthAfter, BaseDepth;
    if k :| 0 <= k < |s| && TopLevelKeywordAt(s, keyword, startAt, k) {
      assert SameScope(s, startAt, k) || !SameScope(s, startAt, k);
    }
  }

  /** The UPDATE at `i` is followed by SET, has no WHERE of its own, and no sibling has a WHERE at its depth. */
  ghost predicate ReportsUpdateAt(s: string, i: nat) {
    DmlAt(s, i).Update? && WordIn(s[DmlAt(s, i).end..], "SET")
    && !OwnKeyword(s, "WHERE", i) && !SiblingKeyword(s, "WHERE", i)
  }

  /** The DELETE at `i` has its two words one space apart and no WHERE of its own, and no sibling has a WHERE at
      its depth. */
  ghost predicate ReportsDeleteAt(s: string, i: nat) {
    DmlAt(s, i).Delete? && s[i + 6..DmlAt(s, i).end - 4] == " "
    && !OwnKeyword(s, "WHERE", i) && !SiblingKeyword(s, "WHERE", i)
  }

  ghost predicate ReportsUpdate(s: string) { exists i | 0 <= i < |s| :: ReportsUpdateAt(s, i) }

  ghost predicate ReportsDelete(s: string) { exists i | 0 <= i < |s| :: ReportsDeleteAt(s, i) }

  lemma FindingIsReport(s: string, i: nat)
    ensures FindingAt(s, i) ==
      if ReportsUpdateAt(s, i) then [UpdateWithoutWhere] else if ReportsDeleteAt(s, i) then [DeleteWithoutWhere] else []
    ensures !(ReportsUpdateAt(s, i) && ReportsDeleteAt(s, i))
  {
    hide TopLevelKeyword, OwnKeyword, SiblingKeyword, WordIn, DmlAt;
    SearchFindsOwn(s, "WHERE", i);
  }

  /** One piece of the text, as cut at the semicolons, gets the report for an UPDATE exactly if it has such
      an UPDATE. */
  lemma UpdateReported(s: string)
    ensures UpdateWithoutWhere in FindingsBefore(s, |s|) <==> ReportsUpdate(s)
  {
    hide FindingAt, ReportsUpdateAt, ReportsDeleteAt;
    FindingsContain(s, |s|, UpdateWithoutWhere);
    forall i | 0 <= i < |s| ensures UpdateWithoutWhere in FindingAt(s, i) <==> ReportsUpdateAt(s, i) {
      FindingIsReport(s, i);
    }
  }

  /** And the report for a DELETE exactly if it has such a DELETE. */
  lemma DeleteReported(s: string)
    ensures DeleteWithoutWhere in FindingsBefore(s, |s|) <==> ReportsDelete(s)
  {
    hide FindingAt, ReportsUpdateAt, ReportsDeleteAt;
    FindingsContain(s, |s|, DeleteWithoutWhere);
    forall i | 0 <= i < |s| ensures DeleteWithoutWhere in FindingAt(s, i) <==> ReportsDeleteAt(s, i) {
      FindingIsReport(s, i);
    }
  }

  ghost predicate Reports(s: string, i: nat) { ReportsUpdateAt(s, i) || ReportsDeleteAt(s, i) }

  /** The places before `n` whose statement is reported, in order. */
  ghost function ReportPlaces(s: string, n: nat): seq<nat> { Where(n, ReportsIn(s)) }

  ghost function ReportsIn(s: string): nat -> bool { (i: nat) => Reports(s, i) }

  function ReportAt(s: string, i: nat): Violation {
    if DmlAt(s, i).Update? then UpdateWithoutWhere else DeleteWithoutWhere
  }

  lemma ReportIsOne(s: string, i: nat)
    ensures FindingAt(s, i) == if Reports(s, i) then [ReportAt(s, i)] else []
  {
    FindingIsReport(s, i);
    hide FindingAt, WordIn, OwnKeyword, SiblingKeyword, DmlAt;
  }

  predicate ReportsAre(s: string, found: seq<Violation>, places: seq<nat>) {
    |found| == |places| && forall k | 0 <= k < |places| :: found[k] == ReportAt(s, places[k])
  }

  lemma OneMoreReport(s: string, n: nat)
    ensures FindingsBefore(s, n + 1) == FindingsBefore(s, n) + if Reports(s, n) then [ReportAt(s, n)] else []
    ensures ReportPlaces(s, n + 1) == ReportPlaces(s, n) + if Reports(s, n) then [n] else []
  {
    ReportIsOne(s, n);
    assert ReportsIn(s)(n) <==> Reports(s, n);
    hide FindingAt, Reports, ReportAt, ReportsIn;
  }

  lemma OneMoreInOrder(s: string, found: seq<Violation>, places: seq<nat>, n: nat)
    requires ReportsAre(s, found, places)
    ensures ReportsAre(s, found + [ReportAt(s, n)], places + [n])
  {
    hide ReportAt;
  }

  lemma NoneInOrder(s: string)
    ensures ReportsAre(s, FindingsBefore(s, 0), ReportPlaces(s, 0))
  {
  }

  lemma NextInOrder(s: string, n: nat)
    requires ReportsAre(s, FindingsBefore(s, n), ReportPlaces(s, n))
    ensures ReportsAre(s, FindingsBefore(s, n + 1), ReportPlaces(s, n + 1))
  {
    hide *;
    OneMoreReport(s, n);
    OneMoreInOrder(s, FindingsBefore(s, n), ReportPlaces(s, n), n);
    if !Reports(s, n) {
      assert FindingsBefore(s, n) + [] == FindingsBefore(s, n);
      assert ReportPlaces(s, n) + [] == ReportPlaces(s, n);
    }
  }

  /** Each such statement of a piece is reported once, in the order of the text. */
  lemma {:induction false} FindingsInOrder(s: string, n: nat)
    ensures ReportsAre(s, FindingsBefore(s, n), ReportPlaces(s, n))
  {
    hide *;
    if n == 0 {
      NoneInOrder(s);
    } else {
      FindingsInOrder(s, n - 1);
      NextInOrder(s, n - 1);
    }
  }

  lemma LastPiece(parts: seq<string>, p: string)
    ensures StatementViolations(parts + [p]) == StatementViolations(parts) + FindingsBefore(p, |p|)
  {
    hide FindingsBefore;
    assert (parts + [p])[..|parts|] == parts;
  }

  /** The pieces are reported on in their order. */
  lemma {:induction false} PiecesInOrder(parts: seq<string>, more: seq<string>)
    ensures StatementViolations(parts + more) == StatementViolations(parts) + StatementViolations(more)
  {
    hide FindingsBefore;
    if more == [] {
      assert parts + more == parts && StatementViolations(more) == [];
    } else {
      var n := |more| - 1;
      PiecesInOrder(parts, more[..n]);
      PiecesJoin(parts, more[..n], more[n]);
      assert more[..n] + [more[n]] == more;
    }
  }

  lemma PiecesJoin(a: seq<string>, b: seq<string>, p: string)
    requires StatementViolations(a + b) == StatementViolations(a) + StatementViolations(b)
    ensures StatementViolations(a + (b + [p])) == StatementViolations(a) + StatementViolations(b + [p])
  {
    hide *;
    LastPiece(b, p);
    LastPiece(a + b, p);
    assert a + (b + [p]) == a + b + [p];
    var x, y, z := StatementViolations(a), StatementViolations(b), FindingsBefore(p, |p|);
    assert x + y + z == x + (y + z);
  }

  lemma {:induction false} NoQuotes(s: string, i: nat)
    requires i <= |s| && forall j | 0 <= j < |s| :: s[j] != '"'
    ensures QuoteAt(s, i).Outside? && (i < |s| ==> Plain(s, i))
  {
    if i > 0 { NoQuotes(s, i - 1); }
  }

  /** Without parentheses the depth stays. */
  lemma {:induction false} FlatDepth(s: string, a: nat, b: nat)
    requires a <= b <= |s| && forall j | a <= j < b :: s[j] != '(' && s[j] != ')'
    ensures DepthAfter(s, b) == DepthAfter(s, a)
  {
    if a < b { FlatDepth(s, a, b - 1); }
  }

  lemma SiblingDepths(s: string, close: nat, open: nat, k: nat)
    requires 1 < close < open < k < |s| && s[0] == '(' && s[close] == ')' && s[open] == '('
    requires forall j | 0 <= j < |s| :: s[j] != '"'
    requires forall j | 0 <= j <= k && j != 0 && j != close && j != open :: s[j] != '(' && s[j] != ')'
    ensures BaseDepth(s, 1) == 1 && DepthAfter(s, close + 1) == 0 && Plain(s, k) && DepthAfter(s, k + 1) == 1
  {
    hide QuoteAt;
    NoQuotes(s, 0);
    NoQuotes(s, 1);
    NoQuotes(s, close);
    NoQuotes(s, open);
    NoQuotes(s, k);
    FlatDepth(s, 1, 2);
    FlatDepth(s, 1, close);
    FlatDepth(s, close + 1, open);
    FlatDepth(s, open + 1, k + 1);
  }

  /** The texts of the two examples below, without their column lists. */
  const HIDDEN_DELETE := "(" + "DELETE" + " " + "FROM" + " t),(" + "WHERE" + ")"
  const HIDDEN_UPDATE := "(" + "UPDATE" + " " + "SET" + "),(" + "WHERE" + ")"

  lemma Between(a: string, b: string, c: string)
    ensures (a + b + c)[|a|..|a| + |b|] == b
  {
  }

  lemma HiddenDeleteText()
    ensures var s := HIDDEN_DELETE;
      && |s| == 23 && s[0] == '(' && s[14] == ')' && s[16] == '(' && s[22] == ')'
      && s[1..7] == "DELETE" && s[7] == ' ' && s[8..12] == "FROM" && s[12] == ' ' && s[17..22] == "WHERE"
      && s[13] == 't' && s[15] == ','
  {
    var s := HIDDEN_DELETE;
    Between("(", "DELETE", " " + "FROM" + " t),(" + "WHERE" + ")");
    assert s == "(" + "DELETE" + (" " + "FROM" + " t),(" + "WHERE" + ")");
    Between("(" + "DELETE" + " ", "FROM", " t),(" + "WHERE" + ")");
    assert s == "(" + "DELETE" + " " + "FROM" + (" t),(" + "WHERE" + ")");
    Between("(" + "DELETE" + " " + "FROM" + " t),(", "WHERE", ")");
  }

  lemma HiddenUpdateText()
    ensures var s := HIDDEN_UPDATE;
      && |s| == 20 && s[0] == '(' && s[11] == ')' && s[13] == '(' && s[19] == ')'
      && s[1..7] == "UPDATE" && s[7] == ' ' && s[8..11] == "SET" && s[12] == ',' && s[14..19] == "WHERE"
  {
    var s := HIDDEN_UPDATE;
    Between("(", "UPDATE", " " + "SET" + "),(" + "WHERE" + ")");
    assert s == "(" + "UPDATE" + (" " + "SET" + "),(" + "WHERE" + ")");
    Between("(" + "UPDATE" + " ", "SET", "),(" + "WHERE" + ")");
    assert s == "(" + "UPDATE" + " " + "SET" + ("),(" + "WHERE" + ")");
    Between("(" + "UPDATE" + " " + "SET" + "),(", "WHERE", ")");
  }

  /** A sibling's WHERE hides an unfiltered statement: the DELETE here has one space and no WHERE of its
      own, and draws no report. */
  lemma SiblingWhereHidesDelete()
    ensures DmlAt(HIDDEN_DELETE, 1) == Delete(12) && HIDDEN_DELETE[7..8] == " "
    ensures !OwnKeyword(HIDDEN_DELETE, "WHERE", 1) && FindingAt(HIDDEN_DELETE, 1) == []
  {
    HiddenDeleteText();
    HiddenDelete(HIDDEN_DELETE);
  }

  /** And so with an UPDATE. */
  lemma SiblingWhereHidesUpdate()
    ensures DmlAt(HIDDEN_UPDATE, 1) == Update(7) && WordIn(HIDDEN_UPDATE[7..], "SET")
    ensures !OwnKeyword(HIDDEN_UPDATE, "WHERE", 1) && FindingAt(HIDDEN_UPDATE, 1) == []
  {
    HiddenUpdateText();
    HiddenUpdate(HIDDEN_UPDATE);
  }

  /** A word of capitals has none of the characters that matter to the search. */
  lemma WordChars(s: string, a: nat, w: string)
    requires a + |w| <= |s| && s[a..a + |w|] == w && forall j | 0 <= j < |w| :: 'A' <= w[j] <= 'Z'
    ensures forall j | a <= j < a + |w| :: s[j] != '"' && s[j] != '(' && s[j] != ')'
    ensures 'W' !in w ==> forall j | a <= j < a + |w| :: s[j] != 'W' && s[j] != 'w'
  {
    forall j | a <= j < a + |w| ensures s[j] == w[j - a] && s[j] in w { assert s[j] == s[a..a + |w|][j - a]; }
  }

  lemma HiddenDelete(s: string)
    requires |s| == 23 && s[0] == '(' && s[14] == ')' && s[16] == '(' && s[22] == ')'
    requires s[1..7] == "DELETE" && s[7] == ' ' && s[8..12] == "FROM" && s[12] == ' ' && s[17..22] == "WHERE"
    requires s[13] == 't' && s[15] == ','
    ensures DmlAt(s, 1) == Delete(12) && s[7..8] == " " && !OwnKeyword(s, "WHERE", 1) && FindingAt(s, 1) == []
  {
    WordChars(s, 1, "DELETE");
    WordChars(s, 8, "FROM");
    WordChars(s, 17, "WHERE");
    hide QuoteAt, DepthAfter, BaseDepth, Plain, DmlAt, OwnKeyword, TopLevelKeyword;
    SiblingDepths(s, 14, 16, 17);
    SiblingHides(s, 14, 17);
    DeleteWords(s);
  }

  lemma UpdateWord(s: string)
    requires |s| == 20 && s[0] == '(' && s[1..7] == "UPDATE" && s[7] == ' ' && s[8..11] == "SET" && s[11] == ')'
    ensures DmlAt(s, 1) == Update(7) && WordIn(s[7..], "SET")
  {
    assert forall j | 0 <= j < 6 :: s[1 + j] == s[1..7][j];
    assert forall j | 0 <= j < 3 :: s[8 + j] == s[8..11][j];
    assert !PrefixAt(s, 1, "DELETE") by { assert Upper(s[1 + 0]) != "DELETE"[0]; }
    assert KeywordAt(s, 1, "UPDATE");
    assert BoundaryBefore(s[7..], 1) && KeywordAt(s[7..], 1, "SET");
  }

  lemma DeleteWords(s: string)
    requires |s| == 23 && s[0] == '(' && s[1..7] == "DELETE" && s[7] == ' ' && s[8..12] == "FROM" && s[12] == ' '
    ensures DmlAt(s, 1) == Delete(12) && s[7..8] == " "
  {
    assert forall j | 0 <= j < 6 :: s[1 + j] == s[1..7][j];
    assert forall j | 0 <= j < 4 :: s[8 + j] == s[8..12][j];
    assert SpaceEnd(s, 8) == 8;
    assert SpaceEnd(s, 7) == 8;
    assert PrefixAt(s, 1, "DELETE") && KeywordAt(s, 8, "FROM");
  }

  lemma HiddenUpdate(s: string)
    requires |s| == 20 && s[0] == '(' && s[11] == ')' && s[13] == '(' && s[19] == ')'
    requires s[1..7] == "UPDATE" && s[7] == ' ' && s[8..11] == "SET" && s[12] == ',' && s[14..19] == "WHERE"
    ensures DmlAt(s, 1) == Update(7) && WordIn(s[7..], "SET")
    ensures !OwnKeyword(s, "WHERE", 1) && FindingAt(s, 1) == []
  {
    WordChars(s, 1, "UPDATE");
    WordChars(s, 8, "SET");
    WordChars(s, 14, "WHERE");
    hide QuoteAt, DepthAfter, BaseDepth, Plain, DmlAt, OwnKeyword, TopLevelKeyword, WordIn;
    SiblingDepths(s, 11, 13, 14);
    SiblingHides(s, 11, 14);
    UpdateWord(s);
  }

  lemma SiblingHides(s: string, close: nat, k: nat)
    requires 1 < close < k && k + 5 < |s| && Plain(s, k) && s[k - 1] == '(' && s[k + 5] == ')'
    requires s[k..k + 5] == "WHERE" && forall j | 1 <= j < close :: s[j] != 'W' && s[j] != 'w'
    requires BaseDepth(s, 1) == 1 && DepthAfter(s, close + 1) == 0 && DepthAfter(s, k + 1) == 1
    ensures !OwnKeyword(s, "WHERE", 1) && SiblingKeyword(s, "WHERE", 1) && TopLevelKeyword(s, "WHERE", 1)
  {
    hide DepthAfter, QuoteAt, Plain, BaseDepth;
    assert Closes(s, 1, close);
    forall j | 1 <= j < |s| && TopLevelKeywordAt(s, "WHERE", 1, j) ensures !SameScope(s, 1, j) {
      assert Upper(s[j + 0]) == "WHERE"[0];
      assert j >= close;
    }
    forall j | 0 <= j < 5 ensures Upper(s[k + j]) == "WHERE"[j] { assert s[k + j] == s[k..k + 5][j]; }
    assert TopLevelKeywordAt(s, "WHERE", 1, k) && !SameScope(s, 1, k);
    SearchFindsOwn(s, "WHERE", 1);
  }

  /** Two spaces are enough: this statement deletes every row and draws no report. */
  lemma DeleteMissed()
    ensures var s := "DELETE  FROM t";
      DmlAt(s, 0).Delete? && !TopLevelKeyword(s, "WHERE", 0)
      && DeleteWithoutWhere !in FindingsBefore(s, |s|)
  {
    var s := "DELETE  FROM t";
    assert SpaceEnd(s, 8) == 8;
    assert SpaceEnd(s, 7) == 8;
    assert SpaceEnd(s, 6) == 8;
    forall k | 0 <= k < |s| ensures !KeywordAt(s, k, "WHERE") {
      if k + 5 <= |s| { assert Upper(s[k + 0]) != "WHERE"[0]; }
    }
    assert PrefixAt(s, 0, "DELETE");
    assert KeywordAt(s, 8, "FROM");
    assert DmlAt(s, 0) == Delete(12);
    assert s[6..8] != " ";
    forall k | 0 <= k < |s| ensures DeleteWithoutWhere !in FindingAt(s, k) {
      if 0 < k < 12 { MatchesDoNotOverlap(s, 0, k); }
      if k >= 12 { NotDmlLetter(s, k); }
    }
    FindingsContain(s, |s|, DeleteWithoutWhere);
  }
}
