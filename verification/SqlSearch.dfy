/** The keyword search of scripts/validate-migrations.ts in terms of the text alone: quotes counted, parentheses
    counted, and whole words. */
module SqlSearch {
  import opened SqlCheck
  import opened SqlScanner
  import opened SqlStatements
  import opened Text

  // --- outside quoted identifiers --------------------------------------------------------------

  /** How many quotes stand before `n`. */
  function Quotes(s: string, n: nat): nat
    requires n <= |s|
  {
    if n == 0 then 0 else Quotes(s, n - 1) + if s[n - 1] == '"' then 1 else 0
  }

  /** No quote, and an even number of them before it: two quotes in a row inside an identifier count as two. */
  predicate Outside(s: string, k: nat) {
    k < |s| && s[k] != '"' && Quotes(s, k) % 2 == 0
  }

  lemma {:induction false} QuotesDecide(s: string, i: nat)
    requires i <= |s|
    ensures QuoteAt(s, i).Inside? <==> Quotes(s, i) % 2 == 1
    ensures QuoteAt(s, i).Doubled? ==> i < |s| && s[i] == '"'
  {
    if i > 0 { QuotesDecide(s, i - 1); }
  }

  lemma PlainIsOutside(s: string, k: nat)
    ensures Plain(s, k) <==> Outside(s, k)
  {
    if k < |s| { QuotesDecide(s, k); }
  }

  // --- the depth -------------------------------------------------------------------------------

  /** How often the character stands outside identifiers before `n`. */
  function CountOf(s: string, ch: char, n: nat): nat
    requires n <= |s|
  {
    if n == 0 then 0 else CountOf(s, ch, n - 1) + if Outside(s, n - 1) && s[n - 1] == ch then 1 else 0
  }

  /** Opening less closing parentheses, up to the character and with it. */
  function Level(s: string, k: nat): int
    requires k < |s|
  {
    CountOf(s, '(', k + 1) - CountOf(s, ')', k + 1)
  }

  lemma {:induction false} DepthIsCount(s: string, n: nat)
    requires n <= |s|
    ensures DepthAfter(s, n) == CountOf(s, '(', n) - CountOf(s, ')', n)
  {
    if n > 0 {
      DepthIsCount(s, n - 1);
      PlainIsOutside(s, n - 1);
    }
  }

  // --- whole words -----------------------------------------------------------------------------

  /** The word, in any case, with no letter, digit or underscore next to it on the right. */
  predicate WordStandsAt(s: string, w: string, k: nat) {
    k + |w| <= |s| && WordEnd(s, k) == k + |w| && forall j | 0 <= j < |w| :: Upper(s[k + j]) == w[j]
  }

  lemma {:induction false} CapitalsAreWord(s: string, k: nat, w: string, n: nat)
    requires Capitals(w) && k + |w| <= |s| && (forall j | 0 <= j < |w| :: Upper(s[k + j]) == w[j]) && n <= |w|
    ensures WordEnd(s, k) >= k + n
  {
    if n > 0 {
      CapitalsAreWord(s, k, w, n - 1);
      assert Upper(s[k + (n - 1)]) == w[n - 1];
      assert IsWord(s[k + n - 1]);
    }
  }

  lemma KeywordIsWholeWord(s: string, k: nat, w: string)
    requires Capitals(w)
    ensures KeywordAt(s, k, w) <==> WordStandsAt(s, w, k)
  {
    if k + |w| <= |s| && forall j | 0 <= j < |w| :: Upper(s[k + j]) == w[j] {
      CapitalsAreWord(s, k, w, |w|);
    }
  }

  // --- the search ------------------------------------------------------------------------------

  /** The word stands at `k`, outside identifiers, with neither a word character nor a dollar sign before it. */
  predicate KeywordStandsAt(s: string, w: string, k: nat) {
    Outside(s, k) && WordStandsAt(s, w, k) && (k > 0 ==> !IsWord(s[k - 1]) && s[k - 1] != '$')
  }

  /** The level of the starting place, or zero if it is inside an identifier. */
  function StartLevel(s: string, startAt: nat): int {
    if Outside(s, startAt) then Level(s, startAt) else 0
  }

  /** What the search finds: the word from the starting place on, at the level of that place. */
  lemma SearchFinds(s: string, w: string, startAt: nat)
    requires Capitals(w)
    ensures TopLevelKeyword(s, w, startAt) <==>
      exists k | startAt <= k < |s| :: KeywordStandsAt(s, w, k) && Level(s, k) == StartLevel(s, startAt)
  {
    forall k: nat | k < |s|
      ensures TopLevelKeywordAt(s, w, startAt, k) <==>
        startAt <= k && KeywordStandsAt(s, w, k) && Level(s, k) == StartLevel(s, startAt)
    {
      FoundAt(s, w, startAt, k);
    }
    hide TopLevelKeywordAt, KeywordStandsAt, Level, StartLevel;
  }

  lemma FoundAt(s: string, w: string, startAt: nat, k: nat)
    requires Capitals(w) && k < |s|
    ensures TopLevelKeywordAt(s, w, startAt, k) <==>
      startAt <= k && KeywordStandsAt(s, w, k) && Level(s, k) == StartLevel(s, startAt)
  {
    PlainIsOutside(s, k);
    PlainIsOutside(s, startAt);
    DepthIsCount(s, k + 1);
    if startAt < |s| { DepthIsCount(s, startAt + 1); }
    KeywordIsWholeWord(s, k, w);
    hide Plain, Outside, DepthAfter, CountOf, KeywordAt, WordStandsAt;
  }

  // --- the statements searched -----------------------------------------------------------------

  predicate StartsWord(s: string, i: nat) { i < |s| && (i > 0 ==> !IsWord(s[i - 1])) }

  predicate LettersAt(s: string, w: string, i: nat) {
    i + |w| <= |s| && forall j | 0 <= j < |w| :: Upper(s[i + j]) == w[j]
  }

  /** DELETE from `i` on, white space and nothing else, and then FROM as a whole word, which ends at `end`. */
  predicate DeleteAt(s: string, i: nat, end: nat) {
    && StartsWord(s, i) && LettersAt(s, "DELETE", i) && i + 6 < end - 4 < |s|
    && (forall k | i + 6 <= k < end - 4 :: IsSpace(s[k])) && WordStandsAt(s, "FROM", end - 4)
  }

  /** A word is found exactly where it stands whole. */
  lemma WordFound(s: string, w: string)
    requires Capitals(w) && w != ""
    ensures WordIn(s, w) <==> exists k | 0 <= k < |s| :: StartsWord(s, k) && WordStandsAt(s, w, k)
  {
    forall k: nat ensures KeywordAt(s, k, w) <==> WordStandsAt(s, w, k) { KeywordIsWholeWord(s, k, w); }
    hide WordEnd, KeywordAt;
    if k :| 0 <= k <= |s| && BoundaryBefore(s, k) && KeywordAt(s, k, w) {
      assert StartsWord(s, k) && WordStandsAt(s, w, k);
    }
    if k :| 0 <= k < |s| && StartsWord(s, k) && WordStandsAt(s, w, k) {
      assert BoundaryBefore(s, k) && KeywordAt(s, k, w);
    }
  }

  /** What counts as a statement to be judged, and where it ends. */
  lemma DmlExactly(s: string, i: nat, end: nat)
    ensures DmlAt(s, i) == Delete(end) <==> DeleteAt(s, i, end)
    ensures DmlAt(s, i) == Update(end) <==> StartsWord(s, i) && WordStandsAt(s, "UPDATE", i) && end == i + 6
  {
    hide *;
    DeleteExactly(s, i, end);
    UpdateExactly(s, i, end);
  }

  lemma DeleteExactly(s: string, i: nat, end: nat)
    ensures DmlAt(s, i) == Delete(end) <==> DeleteAt(s, i, end)
  {
    if i + 6 <= |s| { KeywordIsWholeWord(s, SpaceEnd(s, i + 6), "FROM"); }
    if i < |s| && Upper(s[i]) != 'D' && Upper(s[i]) != 'U' { NotDmlLetter(s, i); }
    hide KeywordAt, WordEnd;
    if DeleteAt(s, i, end) { SpacesEnd(s, i, end); }
  }

  lemma UpdateExactly(s: string, i: nat, end: nat)
    ensures DmlAt(s, i) == Update(end) <==> StartsWord(s, i) && WordStandsAt(s, "UPDATE", i) && end == i + 6
  {
    KeywordIsWholeWord(s, i, "UPDATE");
    NotBoth(s, i);
    hide KeywordAt, WordEnd, SpaceEnd;
  }

  lemma NotBoth(s: string, i: nat)
    ensures !(PrefixAt(s, i, "DELETE") && PrefixAt(s, i, "UPDATE"))
  {
    if PrefixAt(s, i, "DELETE") {
      assert Upper(s[i + 0]) == "DELETE"[0] != "UPDATE"[0];
    }
  }

  lemma SpacesEnd(s: string, i: nat, end: nat)
    requires DeleteAt(s, i, end)
    ensures SpaceEnd(s, i + 6) == end - 4
  {
    assert Upper(s[end - 4 + 0]) == "FROM"[0];
    assert !IsSpace(s[end - 4]);
  }
}
