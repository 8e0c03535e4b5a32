/** Where the lexer of scripts/validate-migrations.ts parts from PostgreSQL with standard strings: there a
    backslash is an ordinary character of a string literal, unless the letter E stands before the literal.
    The lexer takes a backslash for an escape in every literal. */
module SqlStandard {
  import opened SqlCheck
  import opened SqlScanner
  import opened SqlScannerLaws
  import opened SqlStatements
  import opened Text

  /** The automaton's mode, and whether the literal it is in takes backslash escapes. */
  datatype Reading = Reading(mode: Mode, escapes: bool)

  /** The quote at `i` opens a literal with escapes: an E stands before it, as a word of its own. */
  predicate AfterE(text: string, i: nat) {
    0 < i <= |text| && Upper(text[i - 1]) == 'E'
    && (i == 1 || (!IsWord(text[i - 2]) && text[i - 2] != '$'))
  }

  function StandardStep(text: string, i: nat, r: Reading): Reading
    requires i < |text|
  {
    if r.mode.StrBody? && !r.escapes && text[i] == '\\' then r
    else Reading(Step(text, i, r.mode), if r.mode.Normal? then AfterE(text, i) else r.escapes)
  }

  function StandardAt(text: string, i: nat): Reading
    requires i <= |text|
  {
    if i == 0 then Reading(Normal, false) else StandardStep(text, i - 1, StandardAt(text, i - 1))
  }

  /** Character `i` is part of a comment or a literal, as the database reads the text. */
  predicate StandardMasked(text: string, i: nat)
    requires i < |text|
  {
    match StandardAt(text, i).mode
    case Normal => !Step(text, i, Normal).Normal? && !Step(text, i, Normal).IdentBody?
    case IdentBody => false
    case IdentSkip => false
    case _ => true
  }

  function StandardMask(text: string): (m: string)
    ensures |m| == |text|
  {
    seq(|text|, i requires 0 <= i < |text| => if StandardMasked(text, i) then Blank(text[i]) else text[i])
  }

  /** The two read place `i` alike: in the same mode, or both inside the same literal, where the lexer is
      about to pass over the character after a backslash. */
  predicate ReadAlike(text: string, i: nat)
    requires i <= |text|
  {
    var m, n := ModeAt(text, i), StandardAt(text, i).mode;
    m == n || (m.StrSkip? && n.StrBody?)
  }

  /** A backslash before a quote, in a literal without escapes. */
  predicate PlainBackslashQuote(text: string, i: nat) {
    i < |text| && ModeAt(text, i).StrBody? && !StandardAt(text, i).escapes
    && text[i] == '\\' && Is(text, i + 1, '\'')
  }

  lemma ReadNext(text: string, i: nat)
    requires i < |text|
    ensures ModeAt(text, i + 1) == Step(text, i, ModeAt(text, i))
    ensures StandardAt(text, i + 1) == StandardStep(text, i, StandardAt(text, i))
  {
  }

  /** The lexer is in mode `m` before character `i`, the database in `r`: the same, or the lexer is about to
      pass over a character after a backslash, which is no quote. */
  predicate Abreast(text: string, i: nat, m: Mode, r: Reading) {
    m == r.mode || (m.StrSkip? && r == Reading(StrBody, false) && !Is(text, i, '\''))
  }

  lemma AbreastStep(text: string, i: nat, m: Mode, r: Reading)
    requires i < |text| && Abreast(text, i, m, r)
    requires m.StrBody? && !r.escapes && text[i] == '\\' ==> !Is(text, i + 1, '\'')
    ensures Abreast(text, i + 1, Step(text, i, m), StandardStep(text, i, r))
  {
  }

  lemma AbreastNext(text: string, i: nat)
    requires i < |text| && Abreast(text, i, ModeAt(text, i), StandardAt(text, i)) && !PlainBackslashQuote(text, i)
    ensures Abreast(text, i + 1, ModeAt(text, i + 1), StandardAt(text, i + 1))
  {
    ReadNext(text, i);
    hide ModeAt, StandardAt, Step, StandardStep;
    AbreastStep(text, i, ModeAt(text, i), StandardAt(text, i));
  }

  lemma {:induction false} AbreastBefore(text: string, i: nat)
    requires i <= |text| && forall k | 0 <= k < i :: !PlainBackslashQuote(text, k)
    ensures Abreast(text, i, ModeAt(text, i), StandardAt(text, i))
  {
    hide Step, StandardStep, PlainBackslashQuote;
    if i > 0 {
      AbreastBefore(text, i - 1);
      AbreastNext(text, i - 1);
    }
  }

  lemma AlikeBefore(text: string, i: nat)
    requires i <= |text| && forall k | 0 <= k < i :: !PlainBackslashQuote(text, k)
    ensures ReadAlike(text, i)
  {
    AbreastBefore(text, i);
    hide ModeAt, StandardAt, PlainBackslashQuote;
  }

  /** After such a backslash the lexer is still in the literal, and the database is not. */
  lemma PartsAfter(text: string, i: nat)
    requires PlainBackslashQuote(text, i) && ReadAlike(text, i)
    ensures i + 2 <= |text| && !ReadAlike(text, i + 2)
  {
    assert StandardAt(text, i + 1) == StandardAt(text, i) && ModeAt(text, i + 1).StrSkip?;
  }

  /** The lexer reads a text as the database does if and only if no literal without escapes has a backslash
      before a quote. */
  lemma AgreesWithStandard(text: string)
    ensures (forall i | 0 <= i <= |text| :: ReadAlike(text, i)) <==>
      (forall i | 0 <= i < |text| :: !PlainBackslashQuote(text, i))
  {
    hide ModeAt, StandardAt, PlainBackslashQuote, ReadAlike;
    if forall i | 0 <= i < |text| :: !PlainBackslashQuote(text, i) {
      forall i | 0 <= i <= |text| ensures ReadAlike(text, i) {
        AlikeBefore(text, i);
      }
    }
    if i :| 0 <= i < |text| && PlainBackslashQuote(text, i) {
      if ReadAlike(text, i) {
        PartsAfter(text, i);
        assert !ReadAlike(text, i + 2);
      }
    }
  }

  /** On such a text the two blank the same characters. */
  lemma SameMask(text: string)
    requires forall i | 0 <= i < |text| :: !PlainBackslashQuote(text, i)
    ensures MaskOf(text) == StandardMask(text) + if EndsOnEscape(text) then " " else ""
  {
    MaskLength(text);
    forall i | 0 <= i < |text| ensures MaskOf(text)[i] == StandardMask(text)[i] {
      AbreastBefore(text, i);
      assert MaskOf(text)[i] == MaskedChar(text, i);
      assert Masked(text, i) == StandardMasked(text, i);
    }
    hide MaskOf, StandardMask, EndsOnEscape;
  }

  // --- a statement out of sight ----------------------------------------------------------------

  /** No character of the text starts or ends a token. */
  predicate NoTokens(s: string) {
    forall c | c in s :: c != '"' && c != '-' && c != '/' && c != '\'' && c != '$' && c != '\\'
  }

  function AfterLiteral(y: string): string { "'\\'" + y }

  lemma {:induction false} ReadApart(y: string, i: nat)
    requires NoTokens(y) && 3 <= i <= |y| + 3
    ensures ModeAt(AfterLiteral(y), i).StrBody? && StandardAt(AfterLiteral(y), i).mode.Normal?
    ensures i < |y| + 3 ==> !StandardMasked(AfterLiteral(y), i)
  {
    var text := AfterLiteral(y);
    assert i < |text| ==> text[i] in y;
    if i == 3 {
      ReadStart(y);
    } else {
      ReadApart(y, i - 1);
      assert text[i - 1] in y && !StandardMasked(text, i - 1);
    }
    if i < |text| {
      WordStartsAt(text, i, "--");
      WordStartsAt(text, i, "/*");
    }
  }

  lemma ReadStart(y: string)
    requires NoTokens(y)
    ensures var text := AfterLiteral(y);
      && ModeAt(text, 3).StrBody? && StandardAt(text, 3).mode.Normal?
      && forall i | 0 <= i < 3 :: Masked(text, i) && StandardMasked(text, i)
  {
    var text := AfterLiteral(y);
    assert text[0] == '\'' && text[1] == '\\' && text[2] == '\'' && (3 < |text| ==> text[3] in y);
    WordStartsAt(text, 0, "--");
    WordStartsAt(text, 0, "/*");
    ReadNext(text, 0);
    ReadNext(text, 1);
    ReadNext(text, 2);
    assert StandardAt(text, 0) == Reading(Normal, false) && ModeAt(text, 0) == Normal;
    hide ModeAt, StandardAt;
  }

  lemma MaskAfterLiteral(y: string)
    requires NoTokens(y)
    ensures forall i | 0 <= i < |MaskOf(AfterLiteral(y))| :: IsBlank(MaskOf(AfterLiteral(y))[i])
  {
    var text := AfterLiteral(y);
    ReadStart(y);
    forall i | 3 <= i <= |text| ensures ModeAt(text, i).StrBody? { ReadApart(y, i); }
    hide ModeAt;
    var m := MaskOf(text);
    forall i | 0 <= i < |m| ensures IsBlank(m[i]) { assert i < |text| ==> m[i] == MaskedChar(text, i); }
  }

  lemma VisibleAfterLiteral(y: string)
    requires NoTokens(y)
    ensures var text := AfterLiteral(y);
      forall i | 0 <= i < |text| :: StandardMasked(text, i) <==> i < 3
  {
    var text := AfterLiteral(y);
    ReadStart(y);
    forall i | 3 <= i < |text| ensures !StandardMasked(text, i) { ReadApart(y, i); }
  }

  /** Whatever follows the complete literal `'\'` is blank to the check and stands in full before the
      database. */
  lemma TextAfterLiteral(y: string)
    requires NoTokens(y)
    ensures var text := AfterLiteral(y);
      StandardMask(text) == "   " + y && StatementViolations(Split(MaskOf(text))) == []
  {
    VisibleAfterLiteral(y);
    MaskAfterLiteral(y);
    BlankHasNoViolations(MaskOf(AfterLiteral(y)));
    hide StandardMasked, MaskOf, NoTokens, StatementViolations, Split;
    var text := AfterLiteral(y);
    assert text[..3] == "'\\'" && text[3..] == y;
    assert StandardMask(text) == "   " + y;
  }

  lemma SinglePiece(m: string)
    requires ';' !in m
    ensures StatementViolations(Split(m)) == FindingsBefore(m, |m|)
  {
    SplitOne(m);
    hide FindingsBefore, Split;
    assert [m][..0] == [] && StatementViolations([]) == [];
  }

  lemma BlankHasNoViolations(m: string)
    requires forall i | 0 <= i < |m| :: IsBlank(m[i])
    ensures StatementViolations(Split(m)) == []
  {
    hide Split, FindingAt, StatementViolations;
    SinglePiece(m);
    WithoutDml(m, 0, |m|);
  }

  lemma LastPieceCounts(t: string, p: string, v: Violation, patterns: Patterns)
    requires ';' !in t && ';' !in p && v in FindingsBefore(p, |p|)
    ensures v in Violations(t + ";" + p, patterns)
  {
    SplitAt(t, p);
    SplitOne(p);
    hide FindingsBefore, Split, StatementViolations;
    var parts := [t] + [p];
    assert parts[1] == p;
    PiecesContain(parts, v);
  }

  /** Of a statement after such a literal the check sees nothing, whatever it would report of it. */
  lemma StatementAfterLiteral(p: string, v: Violation, patterns: Patterns)
    requires NoTokens(p) && ';' !in p && v in FindingsBefore(p, |p|) && !v.Pattern?
    ensures var text := AfterLiteral(";" + p);
      v in Violations(StandardMask(text), patterns) && v !in Violations(MaskOf(text), patterns)
  {
    hide StandardMask, MaskOf, AfterLiteral, FindingsBefore, Split, StatementViolations, PatternViolations;
    assert forall c | c in ";" + p :: c == ';' || c in p;
    TextAfterLiteral(";" + p);
    LastPieceCounts("   ", p, v, patterns);
    PatternsOnly(MaskOf(AfterLiteral(";" + p)), patterns);
    assert "   " + (";" + p) == "   " + ";" + p;
  }

  const UNFILTERED := "DELETE FROM " + "t"

  /** With PostgreSQL's standard strings this text deletes every row of the table; the check is silent. */
  lemma BackslashHidesDelete(patterns: Patterns)
    ensures var text := AfterLiteral(";" + UNFILTERED);
      && DeleteWithoutWhere in Violations(StandardMask(text), patterns)
      && DeleteWithoutWhere !in Violations(MaskOf(text), patterns)
  {
    var p := UNFILTERED;
    assert |p| == 13 && p[..12] == "DELETE FROM " && p[12] == 't';
    assert NoTokens(p) && ';' !in p;
    DeletePiece(p);
    hide *;
    StatementAfterLiteral(p, DeleteWithoutWhere, patterns);
  }
}
