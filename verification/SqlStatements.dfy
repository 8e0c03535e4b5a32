/** What the check of scripts/validate-migrations.ts says of a whole migration: the text is cut at every
    semicolon, also at one inside a quoted identifier, and each piece is searched on its own. */
module SqlStatements {
  import opened SqlCheck
  import opened SqlScanner
  import opened SqlScannerLaws
  import opened Text

  // --- slices ----------------------------------------------------------------------------------

  /** A slice that starts outside quoted identifiers, and is not cut off before a quote, reads as it does in
      the text. */
  lemma {:induction false} SliceQuotes(s: string, a: nat, b: nat, k: nat)
    requires a <= b <= |s| && QuoteAt(s, a).Outside? && (b == |s| || s[b] != '"') && k <= b - a
    ensures QuoteAt(s[a..b], k) == QuoteAt(s, a + k)
    ensures k < b - a ==> (Plain(s[a..b], k) <==> Plain(s, a + k))
  {
    var t := s[a..b];
    if k > 0 {
      SliceQuotes(s, a, b, k - 1);
      assert t[k - 1] == s[a + k - 1];
      assert Is(t, k, '"') <==> Is(s, a + k, '"');
    }
  }

  lemma {:induction false} SliceDepth(s: string, a: nat, b: nat, k: nat)
    requires a <= b <= |s| && QuoteAt(s, a).Outside? && (b == |s| || s[b] != '"') && k <= b - a
    ensures DepthAfter(s[a..b], k) == DepthAfter(s, a + k) - DepthAfter(s, a)
  {
    if k > 0 {
      SliceDepth(s, a, b, k - 1);
      SliceQuotes(s, a, b, k - 1);
    }
  }

  // --- the scope of a statement ----------------------------------------------------------------

  function ScopeEndFrom(s: string, startAt: nat, j: nat): (e: nat)
    requires j <= |s|
    ensures j <= e <= |s|
    ensures forall k | j <= k < e :: !Closes(s, startAt, k)
    ensures e < |s| ==> Closes(s, startAt, e)
    decreases |s| - j
  {
    if j == |s| || Closes(s, startAt, j) then j else ScopeEndFrom(s, startAt, j + 1)
  }

  /** The place of the parenthesis that closes those around `startAt`, or the end of the text. */
  function ScopeEnd(s: string, startAt: nat): nat
    requires startAt <= |s|
  {
    ScopeEndFrom(s, startAt, startAt)
  }

  lemma ScopeEndsAtParenthesis(s: string, startAt: nat)
    requires startAt < |s| && startAt < ScopeEnd(s, startAt) < |s|
    ensures s[ScopeEnd(s, startAt)] == ')'
  {
    var e := ScopeEnd(s, startAt);
    assert !Closes(s, startAt, e - 1) && Closes(s, startAt, e);
  }

  predicate Capitals(w: string) { forall j | 0 <= j < |w| :: 'A' <= w[j] <= 'Z' }

  /** A keyword does not run over a parenthesis. */
  lemma {:induction false} KeywordStopsBefore(s: string, k: nat, w: string, b: nat, n: nat)
    requires k < b < |s| && s[b] == ')' && Capitals(w) && KeywordAt(s, k, w) && n <= |w|
    ensures k + n <= b
  {
    if n > 0 {
      KeywordStopsBefore(s, k, w, b, n - 1);
      assert Upper(s[k + (n - 1)]) == w[n - 1];
    }
  }

  lemma SliceKeyword(s: string, a: nat, b: nat, k: nat, w: string)
    requires a <= k < b <= |s| && Capitals(w) && (b < |s| ==> s[b] == ')')
    ensures KeywordAt(s[a..b], k - a, w) <==> KeywordAt(s, k, w)
  {
    var t := s[a..b];
    assert forall j | a <= j < b :: t[j - a] == s[j];
    if KeywordAt(s, k, w) {
      if b < |s| { KeywordStopsBefore(s, k, w, b, |w|); }
      forall j | 0 <= j < |w| ensures Upper(t[k - a + j]) == w[j] { assert Upper(s[k + j]) == w[j]; }
    }
    if KeywordAt(t, k - a, w) {
      forall j | 0 <= j < |w| ensures Upper(s[k + j]) == w[j] { assert Upper(t[k - a + j]) == w[j]; }
    }
  }

  lemma SliceBase(s: string, a: nat, i: nat, b: nat)
    requires a <= i < b <= |s| && (b < |s| ==> s[b] == ')')
    requires QuoteAt(s, a).Outside? && (Plain(s, i) || DepthAfter(s, a) == 0)
    ensures BaseDepth(s[a..b], i - a) == BaseDepth(s, i) - DepthAfter(s, a)
  {
    SliceQuotes(s, a, b, i - a);
    SliceDepth(s, a, b, i - a + 1);
    assert a + (i - a + 1) == i + 1;
    hide QuoteAt, DepthAfter, Plain;
  }

  /** The slice from `a` to the end of the scope of `i` is searched as the text is. */
  lemma SliceSearch(s: string, w: string, a: nat, i: nat, b: nat, k: nat)
    requires a <= i <= k < b <= |s| && Capitals(w) && (b < |s| ==> s[b] == ')')
    requires QuoteAt(s, a).Outside? && (a > 0 ==> !IsWord(s[a - 1]) && s[a - 1] != '$')
    requires Plain(s, i) || DepthAfter(s, a) == 0
    ensures TopLevelKeywordAt(s[a..b], w, i - a, k - a) <==> TopLevelKeywordAt(s, w, i, k)
  {
    SliceBase(s, a, i, b);
    SliceQuotes(s, a, b, k - a);
    SliceDepth(s, a, b, k - a + 1);
    SliceKeyword(s, a, b, k, w);
    assert a + (k - a + 1) == k + 1;
    if k > a { assert s[a..b][k - a - 1] == s[k - 1]; }
    hide QuoteAt, DepthAfter, KeywordAt, BaseDepth, Plain, Capitals, IsWord;
  }

  /** The slice may start at the beginning of the text, or at any plain place before the statement that cuts
      no word, such as after the opening parenthesis. */
  predicate MayStart(s: string, a: nat, i: nat) {
    && a <= i < |s| && QuoteAt(s, a).Outside? && (a > 0 ==> !IsWord(s[a - 1]) && s[a - 1] != '$')
    && (Plain(s, i) || DepthAfter(s, a) == 0)
  }

  lemma StartsLater(s: string, w: string, startAt: nat, k: nat)
    requires TopLevelKeywordAt(s, w, startAt, k)
    ensures startAt <= k < |s|
  {
  }

  lemma OwnInSlice(s: string, w: string, a: nat, i: nat, k: nat)
    requires Capitals(w) && MayStart(s, a, i) && i <= k
    ensures var e := ScopeEnd(s, i);
      (k < |s| && TopLevelKeywordAt(s, w, i, k) && SameScope(s, i, k))
      <==> (k < e && TopLevelKeywordAt(s[a..e], w, i - a, k - a))
  {
    var e := ScopeEnd(s, i);
    if i < e < |s| { ScopeEndsAtParenthesis(s, i); }
    if k < e { SliceSearch(s, w, a, i, e, k); }
    hide TopLevelKeywordAt, Closes, QuoteAt, DepthAfter, Plain;
    assert k < |s| ==> (SameScope(s, i, k) <==> k < e);
  }

  lemma OwnIsFound(s: string, w: string, a: nat, i: nat)
    requires Capitals(w) && MayStart(s, a, i) && OwnKeyword(s, w, i)
    ensures TopLevelKeyword(s[a..ScopeEnd(s, i)], w, i - a)
  {
    var k :| 0 <= k < |s| && TopLevelKeywordAt(s, w, i, k) && SameScope(s, i, k);
    StartsLater(s, w, i, k);
    OwnInSlice(s, w, a, i, k);
    hide TopLevelKeywordAt, SameScope, ScopeEnd, MayStart, Capitals;
    assert 0 <= k - a < |s[a..ScopeEnd(s, i)]|;
  }

  lemma FoundIsOwn(s: string, w: string, a: nat, i: nat)
    requires Capitals(w) && MayStart(s, a, i) && TopLevelKeyword(s[a..ScopeEnd(s, i)], w, i - a)
    ensures OwnKeyword(s, w, i)
  {
    var t := s[a..ScopeEnd(s, i)];
    var j :| 0 <= j < |t| && TopLevelKeywordAt(t, w, i - a, j);
    StartsLater(t, w, i - a, j);
    assert a + j - a == j;
    OwnInSlice(s, w, a, i, a + j);
    hide TopLevelKeywordAt, SameScope, ScopeEnd, MayStart, Capitals;
    assert TopLevelKeywordAt(s, w, i, a + j);
  }

  /** A keyword is a statement's own exactly if the code's search finds it in the slice that ends where the
      parentheses around the statement close. */
  lemma OwnIsSearchOfScope(s: string, w: string, a: nat, i: nat)
    requires Capitals(w) && MayStart(s, a, i)
    ensures OwnKeyword(s, w, i) <==> TopLevelKeyword(s[a..ScopeEnd(s, i)], w, i - a)
    ensures MayStart(s, 0, i)
  {
    if OwnKeyword(s, w, i) { OwnIsFound(s, w, a, i); }
    if TopLevelKeyword(s[a..ScopeEnd(s, i)], w, i - a) { FoundIsOwn(s, w, a, i); }
    hide OwnKeyword, TopLevelKeyword, ScopeEnd;
  }

  // --- the cut at semicolons -------------------------------------------------------------------

  /** The statements from `i` on, cut at the semicolons outside quoted identifiers. */
  function StatementsFrom(sql: string, i: nat): (parts: seq<string>)
    requires i <= |sql|
    ensures parts != []
    decreases |sql| - i
  {
    if i == |sql| then [""]
    else
      var rest := StatementsFrom(sql, i + 1);
      if sql[i] == ';' && Plain(sql, i) then [""] + rest else [[sql[i]] + rest[0]] + rest[1..]
  }

  function Statements(sql: string): seq<string> { StatementsFrom(sql, 0) }

  /** No semicolon stands in a quoted identifier. */
  predicate SemicolonsPlain(sql: string, from: nat) {
    forall k | from <= k < |sql| && sql[k] == ';' :: Plain(sql, k)
  }

  lemma {:induction false} SplitFrom(sql: string, i: nat)
    requires i <= |sql|
    ensures |Split(sql[i..])| >= |StatementsFrom(sql, i)|
    ensures |Split(sql[i..])| == |StatementsFrom(sql, i)| ==> SemicolonsPlain(sql, i)
    ensures SemicolonsPlain(sql, i) ==> Split(sql[i..]) == StatementsFrom(sql, i)
    decreases |sql| - i
  {
    if i < |sql| {
      SplitFrom(sql, i + 1);
      assert sql[i..][0] == sql[i] && sql[i..][1..] == sql[i + 1..];
    }
  }

  /** Cutting at every semicolon gives the statements exactly if no semicolon stands in a quoted
      identifier. */
  lemma SplitGivesStatements(sql: string)
    ensures Split(sql) == Statements(sql) <==> SemicolonsPlain(sql, 0)
  {
    SplitFrom(sql, 0);
    assert sql[0..] == sql;
  }

  // --- the check of a whole text ---------------------------------------------------------------

  lemma {:induction false} PiecesContain(parts: seq<string>, v: Violation)
    ensures v in StatementViolations(parts) <==> exists p | p in parts :: v in FindingsBefore(p, |p|)
  {
    if parts != [] {
      hide FindingsBefore;
      var n := |parts| - 1;
      PiecesContain(parts[..n], v);
      assert forall p | p in parts :: p in parts[..n] || p == parts[n];
      assert forall p | p in parts[..n] :: p in parts;
      assert parts[n] in parts;
    }
  }

  lemma {:induction false} PatternsOnly(sql: string, patterns: Patterns)
    ensures forall v | v in PatternViolations(sql, patterns) :: v.Pattern?
  {
    if patterns != [] { PatternsOnly(sql, patterns[..|patterns| - 1]); }
  }

  predicate Occurs(sql: string, patterns: Patterns, i: nat) { i < |patterns| && patterns[i].1(sql) > 0 }

  /** The places of the patterns that occur in the text, in order. */
  function Occurring(sql: string, patterns: Patterns): seq<nat> {
    Where(|patterns|, (i: nat) => Occurs(sql, patterns, i))
  }

  /** The violation is what pattern `i` reports. */
  predicate IsReportOf(v: Violation, sql: string, patterns: Patterns, i: nat) {
    i < |patterns| && v == Pattern(patterns[i].0, patterns[i].1(sql))
  }

  ghost predicate InOrder(found: seq<Violation>, hits: seq<nat>, sql: string, patterns: Patterns) {
    |found| == |hits| && forall k | 0 <= k < |hits| :: IsReportOf(found[k], sql, patterns, hits[k])
  }

  lemma {:induction false} PatternsBefore(sql: string, patterns: Patterns, n: nat)
    requires n <= |patterns|
    ensures InOrder(PatternViolations(sql, patterns[..n]), Where(n, (i: nat) => Occurs(sql, patterns, i)),
                    sql, patterns)
  {
    if n > 0 {
      PatternsBefore(sql, patterns, n - 1);
      assert patterns[..n][..n - 1] == patterns[..n - 1] && patterns[..n][n - 1] == patterns[n - 1];
    }
  }

  lemma PatternsInOrder(sql: string, patterns: Patterns)
    ensures InOrder(PatternViolations(sql, patterns), Occurring(sql, patterns), sql, patterns)
  {
    PatternsBefore(sql, patterns, |patterns|);
    assert patterns[..|patterns|] == patterns;
  }

  lemma {:induction false} NoPatternHere(parts: seq<string>)
    ensures forall v | v in StatementViolations(parts) :: v == UpdateWithoutWhere || v == DeleteWithoutWhere
  {
    if parts != [] {
      var n := |parts| - 1;
      NoPatternHere(parts[..n]);
      FindingsAreDml(parts[n], |parts[n]|);
    }
  }

  lemma {:induction false} FindingsAreDml(s: string, n: nat)
    ensures forall v | v in FindingsBefore(s, n) :: v == UpdateWithoutWhere || v == DeleteWithoutWhere
  {
    hide TopLevelKeyword, WordIn, DmlAt;
    if n > 0 { FindingsAreDml(s, n - 1); }
  }

  /** The reports of a migration begin with one for each pattern that occurs in the masked text, in the order of
      the patterns and with the number of matches. The rest are reports of UPDATEs and DELETEs. */
  lemma PatternsComeFirst(content: string, patterns: Patterns)
    ensures var sql := MaskOf(content);
      var found, hits := Violations(sql, patterns), Occurring(sql, patterns);
      && |hits| <= |found|
      && (forall k | 0 <= k < |hits| :: IsReportOf(found[k], sql, patterns, hits[k]))
      && (forall k | |hits| <= k < |found| :: found[k] == UpdateWithoutWhere || found[k] == DeleteWithoutWhere)
  {
    var sql := MaskOf(content);
    PatternsInOrder(sql, patterns);
    NoPatternHere(Split(sql));
    hide MaskOf, Occurring, PatternViolations, StatementViolations;
    var dml := StatementViolations(Split(sql));
    assert forall k | 0 <= k < |dml| :: dml[k] in dml;
  }

  /** A pattern is reported exactly if it occurs, with the number of its matches. */
  lemma PatternReported(content: string, patterns: Patterns, description: string, count: nat)
    ensures Pattern(description, count) in Violations(MaskOf(content), patterns) <==>
      count > 0 && exists i | 0 <= i < |patterns| ::
        patterns[i].0 == description && patterns[i].1(MaskOf(content)) == count
  {
    var sql, v := MaskOf(content), Pattern(description, count);
    PatternsComeFirst(content, patterns);
    var found, hits := Violations(sql, patterns), Occurring(sql, patterns);
    hide MaskOf, Violations;
    if v in found {
      var k :| 0 <= k < |found| && found[k] == v;
      assert IsReportOf(v, sql, patterns, hits[k]);
    }
    if i :| count > 0 && 0 <= i < |patterns| && patterns[i].0 == description && patterns[i].1(sql) == count {
      assert i in hits;
      var k :| 0 <= k < |hits| && hits[k] == i;
      assert IsReportOf(found[k], sql, patterns, i);
    }
  }

  /** A migration passes exactly if no pattern occurs in its masked text and no piece of it reports. */
  lemma PassesExactly(content: string, patterns: Patterns)
    ensures var sql := MaskOf(content);
      Violations(sql, patterns) == [] <==>
        && (forall i | 0 <= i < |patterns| :: patterns[i].1(sql) == 0)
        && (forall p | p in Split(sql) :: !ReportsUpdate(p) && !ReportsDelete(p))
  {
    hide MaskOf, Violations, Split, ReportsUpdate, ReportsDelete, SemicolonsPlain, IsReportOf;
    var sql := MaskOf(content);
    PatternsComeFirst(content, patterns);
    CheckReports(content, patterns);
    var found, hits := Violations(sql, patterns), Occurring(sql, patterns);
    if found == [] {
      forall i: nat | i < |patterns| ensures patterns[i].1(sql) == 0 {
        assert Occurs(sql, patterns, i) ==> i in hits;
      }
    } else if hits != [] {
      assert Occurs(sql, patterns, hits[0]);
    } else {
      assert found[0] in found;
    }
  }

  /** What the check reports of the statements of a migration: it judges the pieces of the masked text, and
      these are its statements exactly if no semicolon stands in a quoted identifier. */
  lemma CheckReports(content: string, patterns: Patterns)
    ensures var sql := MaskOf(content);
      && (UpdateWithoutWhere in Violations(sql, patterns) <==> exists p | p in Split(sql) :: ReportsUpdate(p))
      && (DeleteWithoutWhere in Violations(sql, patterns) <==> exists p | p in Split(sql) :: ReportsDelete(p))
    ensures var sql := MaskOf(content);
      SemicolonsPlain(sql, 0) ==>
        && (UpdateWithoutWhere in Violations(sql, patterns) <==>
            exists p | p in Statements(sql) :: ReportsUpdate(p))
        && (DeleteWithoutWhere in Violations(sql, patterns) <==>
            exists p | p in Statements(sql) :: ReportsDelete(p))
  {
    var sql := MaskOf(content);
    PatternsOnly(sql, patterns);
    PiecesContain(Split(sql), UpdateWithoutWhere);
    PiecesContain(Split(sql), DeleteWithoutWhere);
    SplitGivesStatements(sql);
    forall p ensures UpdateWithoutWhere in FindingsBefore(p, |p|) <==> ReportsUpdate(p) { UpdateReported(p); }
    forall p ensures DeleteWithoutWhere in FindingsBefore(p, |p|) <==> ReportsDelete(p) { DeleteReported(p); }
    hide ReportsUpdate, ReportsDelete, MaskOf, Split, Statements, StatementViolations, PatternViolations,
         FindingsBefore;
  }

  // --- a semicolon in a quoted identifier ------------------------------------------------------

  /** Characters that neither start a token of the lexer nor cut the text. */
  predicate Quiet(s: string) {
    forall c | c in s :: c != ';' && c != '"' && c != '-' && c != '/' && c != '\'' && c != '$'
  }

  /** The text `x` followed by the quoted identifier `";"` and `y`. */
  function Around(x: string, y: string): string { x + "\";\"" + y }

  lemma {:induction false} SplitAt(t: string, u: string)
    requires ';' !in t
    ensures Split(t + ";" + u) == [t] + Split(u)
  {
    var s := t + ";" + u;
    if t == [] {
      assert s[0] == ';' && s[1..] == u;
    } else {
      assert t[0] in t;
      SplitAt(t[1..], u);
      assert s[0] == t[0] && s[1..] == t[1..] + ";" + u;
      assert [t[0]] + t[1..] == t;
    }
  }

  lemma {:induction false} SplitOne(t: string)
    requires ';' !in t
    ensures Split(t) == [t]
  {
    if t != [] {
      assert t[0] in t;
      SplitOne(t[1..]);
      assert [t[0]] + t[1..] == t;
    }
  }

  lemma {:induction false} OneStatement(sql: string, i: nat)
    requires i <= |sql| && forall k | i <= k < |sql| && sql[k] == ';' :: !Plain(sql, k)
    ensures StatementsFrom(sql, i) == [sql[i..]]
    decreases |sql| - i
  {
    hide Plain;
    if i < |sql| {
      OneStatement(sql, i + 1);
      assert sql[i..] == [sql[i]] + sql[i + 1..];
    }
  }

  /** A text without comments, literals and dollar signs is its own mask. */
  lemma {:induction false} NothingToMask(text: string, i: nat)
    requires i <= |text| && forall c | c in text :: c != '-' && c != '/' && c != '\'' && c != '$'
    ensures ModeAt(text, i).Normal? || ModeAt(text, i).InIdent()
    ensures i < |text| ==> !Masked(text, i)
  {
    if i > 0 { NothingToMask(text, i - 1); }
    if i < |text| {
      assert text[i] in text;
      WordStartsAt(text, i, "--");
      WordStartsAt(text, i, "/*");
    }
  }

  lemma OwnMask(text: string)
    requires forall c | c in text :: c != '-' && c != '/' && c != '\'' && c != '$'
    ensures MaskOf(text) == text
  {
    forall i | 0 <= i <= |text|
      ensures (i < |text| ==> !Masked(text, i)) && !ModeAt(text, i).StrSkip?
    {
      NothingToMask(text, i);
    }
    hide ModeAt, Masked;
  }

  lemma {:induction false} AroundQuotes(x: string, y: string, i: nat)
    requires Quiet(x) && Quiet(y) && i <= |Around(x, y)|
    ensures QuoteAt(Around(x, y), i) == if |x| < i < |x| + 3 then Inside else Outside
  {
    var s := Around(x, y);
    if i > 0 {
      AroundQuotes(x, y, i - 1);
      assert i <= |x| ==> s[i - 1] in x;
      assert |x| + 3 < i ==> s[i - 1] in y;
      assert |x| + 3 < |s| ==> s[|x| + 3] in y;
    }
  }

  lemma AroundMask(x: string, y: string)
    requires Quiet(x) && Quiet(y)
    ensures MaskOf(Around(x, y)) == Around(x, y)
  {
    hide MaskOf;
    assert forall c | c in Around(x, y) :: c in x || c in y || c == '"' || c == ';';
    OwnMask(Around(x, y));
  }

  lemma AroundPieces(x: string, y: string)
    requires Quiet(x) && Quiet(y)
    ensures Split(Around(x, y)) == [x + "\"", "\"" + y]
  {
    hide Split;
    assert Around(x, y) == (x + "\"") + ";" + ("\"" + y);
    assert forall c | c in x + "\"" || c in "\"" + y :: c in x || c in y || c == '"';
    SplitAt(x + "\"", "\"" + y);
    SplitOne("\"" + y);
  }

  lemma AroundStatement(x: string, y: string)
    requires Quiet(x) && Quiet(y)
    ensures Statements(Around(x, y)) == [Around(x, y)]
  {
    hide QuoteAt, StatementsFrom;
    var s := Around(x, y);
    assert forall k | 0 <= k < |x| :: s[k] in x;
    assert forall k | |x| + 3 <= k < |s| :: s[k] in y;
    forall k | 0 <= k < |s| ensures s[k] == ';' ==> !Plain(s, k) { AroundQuotes(x, y, k); }
    hide Plain;
    OneStatement(s, 0);
    assert s[0..] == s;
  }

  /** One statement, and two pieces. */
  lemma AroundSplits(x: string, y: string)
    requires Quiet(x) && Quiet(y)
    ensures var s := Around(x, y);
      MaskOf(s) == s && Statements(s) == [s] && Split(s) == [x + "\"", "\"" + y]
  {
    hide MaskOf, Statements, Split, Around, Quiet;
    AroundMask(x, y);
    AroundPieces(x, y);
    AroundStatement(x, y);
  }

  /** A text without the letters D and U has no DML statement. */
  lemma {:induction false} WithoutDml(s: string, a: nat, n: nat)
    requires a <= n <= |s| && forall k | a <= k < n :: Upper(s[k]) != 'D' && Upper(s[k]) != 'U'
    ensures FindingsBefore(s, n) == FindingsBefore(s, a)
  {
    hide DmlAt;
    if a < n {
      NotDmlLetter(s, n - 1);
      WithoutDml(s, a, n - 1);
    }
  }

  lemma NoWhere(s: string, i: nat)
    requires forall c | c in s :: Upper(c) != 'W'
    ensures !TopLevelKeyword(s, "WHERE", i) && !OwnKeyword(s, "WHERE", i) && !SiblingKeyword(s, "WHERE", i)
  {
    forall k | 0 <= k < |s| ensures !TopLevelKeywordAt(s, "WHERE", i, k) {
      assert s[k] in s && Upper(s[k + 0]) != "WHERE"[0];
    }
    hide TopLevelKeywordAt;
  }

  const QUOTED_UPDATE := Around("UPDATE ", " SET c")
  const QUOTED_DELETE := Around("DELETE FROM ", " WHERE c")

  lemma UpdateStarts(s: string)
    requires |s| > 6 && s[..7] == "UPDATE "
    ensures DmlAt(s, 0) == Update(6)
  {
    assert forall j | 0 <= j < 7 :: s[j] == s[..7][j];
    assert !PrefixAt(s, 0, "DELETE") by { assert Upper(s[0 + 0]) != "DELETE"[0]; }
    assert KeywordAt(s, 0, "UPDATE");
  }

  lemma DeleteStarts(s: string)
    requires |s| > 11 && s[..12] == "DELETE FROM "
    ensures DmlAt(s, 0) == Delete(11) && s[6..7] == " "
  {
    assert forall j | 0 <= j < 12 :: s[j] == s[..12][j];
    assert SpaceEnd(s, 7) == 7;
    assert SpaceEnd(s, 6) == 7;
    assert PrefixAt(s, 0, "DELETE") && KeywordAt(s, 7, "FROM");
  }

  lemma QuietTexts()
    ensures Quiet("UPDATE ") && Quiet(" SET c") && Quiet("DELETE FROM ") && Quiet(" WHERE c")
  {
  }

  lemma QuotedUpdateText()
    ensures var s := QUOTED_UPDATE;
      |s| == 16 && s[..7] == "UPDATE " && s[10] == ' ' && s[11..14] == "SET" && s[14] == ' '
      && forall c | c in s :: Upper(c) != 'W'
  {
    var x, y := "UPDATE ", " SET c";
    assert QUOTED_UPDATE == x + "\";\"" + y;
    assert QUOTED_UPDATE[..7] == x;
    assert y[1..4] == "SET";
    assert QUOTED_UPDATE[11..14] == y[1..4];
  }

  lemma QuotedDeleteText()
    ensures var s := QUOTED_DELETE;
      |s| == 23 && s[..12] == "DELETE FROM " && s[15] == ' ' && s[16..21] == "WHERE" && s[21] == ' '
      && forall k | 1 <= k < |s| :: Upper(s[k]) != 'D' && Upper(s[k]) != 'U' && s[k] != '(' && s[k] != ')'
  {
    var x, y := "DELETE FROM ", " WHERE c";
    assert QUOTED_DELETE == x + "\";\"" + y;
    assert QUOTED_DELETE[..12] == x;
    assert y[1..6] == "WHERE";
    assert QUOTED_DELETE[16..21] == y[1..6];
    assert forall k | 1 <= k < 12 :: QUOTED_DELETE[k] == x[k];
    assert forall k | 15 <= k < 23 :: QUOTED_DELETE[k] == y[k - 15];
  }

  lemma UpdateWithSet(s: string)
    requires |s| == 16 && s[..7] == "UPDATE " && s[10] == ' ' && s[11..14] == "SET" && s[14] == ' '
    requires forall c | c in s :: Upper(c) != 'W'
    ensures ReportsUpdate(s)
  {
    UpdateStarts(s);
    var t := s[6..];
    assert forall j | 0 <= j < 3 :: t[5 + j] == s[11..14][j];
    assert BoundaryBefore(t, 5) && KeywordAt(t, 5, "SET");
    assert WordIn(t, "SET");
    NoWhere(s, 0);
    hide DmlAt, WordIn, OwnKeyword, SiblingKeyword;
    assert ReportsUpdateAt(s, 0);
  }

  lemma DeleteWithWhere(s: string)
    requires |s| == 23 && s[..12] == "DELETE FROM " && s[15] == ' ' && s[16..21] == "WHERE" && s[21] == ' '
    requires forall k | 1 <= k < |s| :: Upper(s[k]) != 'D' && Upper(s[k]) != 'U' && s[k] != '(' && s[k] != ')'
    requires forall k | 0 <= k <= |s| :: QuoteAt(s, k) == if 12 < k < 15 then Inside else Outside
    ensures OwnKeyword(s, "WHERE", 0) && !ReportsDelete(s)
  {
    hide QuoteAt;
    assert s[0] == s[..12][0];
    assert forall j | 0 <= j < 5 :: s[16 + j] == s[16..21][j];
    assert KeywordAt(s, 16, "WHERE");
    forall k | 0 <= k <= |s| ensures DepthAfter(s, k) == 0 { FlatDepth(s, 0, k); }
    hide DepthAfter, KeywordAt;
    assert TopLevelKeywordAt(s, "WHERE", 0, 16) && SameScope(s, 0, 16);
    hide OwnKeyword, SiblingKeyword, TopLevelKeywordAt, SameScope, DmlAt;
    forall k | 1 <= k < |s| ensures !DmlAt(s, k).Delete? { NotDmlLetter(s, k); }
  }

  /** The piece `UPDATE "` has no report. */
  lemma UpdatePiece(p: string)
    requires |p| == 8 && p[..7] == "UPDATE " && p[7] == '"'
    ensures FindingsBefore(p, 8) == []
  {
    UpdateStarts(p);
    assert !WordIn(p[6..], "SET");
    hide WordIn, DmlAt;
    MatchSkipped(p, 0);
    assert FindingsBefore(p, 0) == [] && FindingAt(p, 0) == [];
    assert FindingsBefore(p, 1) == [];
    assert Upper(p[6]) == ' ' by { assert p[6] == p[..7][6]; }
    WithoutDml(p, 6, 8);
  }

  lemma UpdatePieces()
    ensures StatementViolations(["UPDATE " + "\"", "\"" + " SET c"]) == []
  {
    var p, q := "UPDATE " + "\"", "\"" + " SET c";
    assert p[..7] == "UPDATE ";
    UpdatePiece(p);
    WithoutDml(q, 0, 7);
    hide FindingsBefore, DmlAt;
    assert [p, q][..1] == [p] && [p][..0] == [];
    assert StatementViolations([p]) == [];
  }

  /** The piece `DELETE FROM "` has one, and so has any text of that length. */
  lemma DeletePiece(p: string)
    requires |p| == 13 && p[..12] == "DELETE FROM " && Upper(p[12]) != 'W'
    ensures DeleteWithoutWhere in FindingsBefore(p, 13)
  {
    DeleteStarts(p);
    assert forall k | 0 <= k < 12 :: p[k] == p[..12][k] && Upper(p[..12][k]) != 'W';
    NoWhere(p, 0);
    hide DmlAt, TopLevelKeyword;
    assert FindingAt(p, 0) == [DeleteWithoutWhere];
    FindingsContain(p, 13, DeleteWithoutWhere);
  }

  /** This UPDATE is one statement without a WHERE, which the search would report; the cut at the semicolon
      of its quoted name hides it. */
  lemma QuotedSemicolonHidesUpdate(patterns: Patterns)
    ensures var sql := QUOTED_UPDATE;
      && MaskOf(sql) == sql && Statements(sql) == [sql] && ReportsUpdate(sql)
      && UpdateWithoutWhere !in Violations(MaskOf(sql), patterns)
  {
    var sql, x, y := QUOTED_UPDATE, "UPDATE ", " SET c";
    QuietTexts();
    QuotedUpdateText();
    AroundSplits(x, y);
    UpdateWithSet(sql);
    UpdatePieces();
    hide *;
    PatternsOnly(sql, patterns);
  }

  /** This DELETE is one statement with a WHERE of its own; the cut leaves its beginning without one. */
  lemma QuotedSemicolonReportsDelete(patterns: Patterns)
    ensures var sql := QUOTED_DELETE;
      && MaskOf(sql) == sql && Statements(sql) == [sql] && OwnKeyword(sql, "WHERE", 0) && !ReportsDelete(sql)
      && DeleteWithoutWhere in Violations(MaskOf(sql), patterns)
  {
    var sql, x, y := QUOTED_DELETE, "DELETE FROM ", " WHERE c";
    QuietTexts();
    QuotedDeleteText();
    AroundSplits(x, y);
    forall k | 0 <= k <= |sql| ensures QuoteAt(sql, k) == if 12 < k < 15 then Inside else Outside {
      AroundQuotes(x, y, k);
    }
    DeleteWithWhere(sql);
    var p, q := x + "\"", "\"" + y;
    assert p[..12] == x;
    DeletePiece(p);
    hide *;
    PiecesContain([p, q], DeleteWithoutWhere);
    assert p in [p, q];
  }
}
