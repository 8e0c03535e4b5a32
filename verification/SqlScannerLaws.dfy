/** What the lexer's mask promises: it keeps the layout of the text, and masking is idempotent. */
module SqlScannerLaws {
  import opened SqlScanner
  import Text

  /** The text ends inside a string literal, on a backslash that escapes nothing. */
  predicate EndsOnEscape(text: string) {
    |text| > 0 && text[|text| - 1] == '\\' && ModeAt(text, |text| - 1).StrBody?
  }

  /** The mask has the length of the text, and one more blank exactly for a dangling escape. */
  lemma MaskLength(text: string)
    ensures |MaskOf(text)| == if EndsOnEscape(text) then |text| + 1 else |text|
    ensures EndsOnEscape(text) ==> MaskOf(text)[|text|] == ' '
  {
    if |text| > 0 && ModeAt(text, |text| - 1).StrBody? && text[|text| - 1] == '\'' {
      assert !Is(text, |text|, '\'');
    }
  }

  /** Two characters whose mask has three. */
  lemma DanglingEscape()
    ensures EndsOnEscape("'\\") && |MaskOf("'\\")| == 3
  {
    MaskLength("'\\");
  }

  /** Line breaks and unmasked characters stay where they are; every other character is a blank. */
  lemma MaskKeepsLayout(text: string, i: nat)
    requires i < |text|
    ensures text[i] == '\n' || text[i] == '\r' || !Masked(text, i) ==> MaskOf(text)[i] == text[i]
    ensures Masked(text, i) && text[i] != '\n' && text[i] != '\r' ==> MaskOf(text)[i] == ' '
    ensures MaskOf(text)[i] == text[i] || MaskOf(text)[i] == ' '
  {
    assert MaskOf(text)[i] == MaskedChar(text, i);
  }

  predicate IsBlank(ch: char) {
    ch == ' ' || ch == '\n' || ch == '\r'
  }

  /** A visible character of the mask was there in the text, unmasked. */
  lemma VisibleIsOriginal(text: string, i: nat)
    requires i < |MaskOf(text)| && !IsBlank(MaskOf(text)[i])
    ensures i < |text| && text[i] == MaskOf(text)[i] && !Masked(text, i)
  {
    if i < |text| { assert MaskOf(text)[i] == MaskedChar(text, i); }
  }

  /** A word of visible characters in the mask was there in the text. */
  lemma VisibleWord(text: string, i: nat, w: string)
    requires w != [] && StartsWith(MaskOf(text), i, w)
    requires forall k :: 0 <= k < |w| ==> !IsBlank(w[k])
    ensures StartsWith(text, i, w)
  {
    var m := MaskOf(text);
    forall k | 0 <= k < |w| ensures i + k < |text| && text[i + k] == w[k] {
      assert m[i..i + |w|][k] == w[k];
      VisibleIsOriginal(text, i + k);
    }
    VisibleIsOriginal(text, i + |w| - 1);
    assert text[i..i + |w|] == w;
  }

  /** A delimiter seen in the mask was there in the text. */
  lemma VisibleTag(text: string, i: nat)
    requires i < |text| && TagLength(MaskOf(text), i) > 0
    ensures TagLength(text, i) == TagLength(MaskOf(text), i)
  {
    hide MaskOf, ModeAt;
    var m := MaskOf(text);
    var tag := m[i..i + TagLength(m, i)];
    forall k | 0 <= k < |tag| ensures !IsBlank(tag[k]) {
      assert k == 0 || k == |tag| - 1 || IsWord(tag[k]);
    }
    VisibleWord(text, i, tag);
    TagLengthFinds(text, i, |tag|);
  }

  /** Where the text's mode is a quoted identifier, so is the mask's; elsewhere the mask is ordinary
      text, and no token other than a quoted identifier starts there. */
  ghost predicate Aligned(text: string, i: nat)
    requires i <= |text|
  {
    var t, m := ModeAt(text, i), ModeAt(MaskOf(text), i);
    if t.InIdent() then m == t else m.Normal?
  }

  lemma {:induction false} AlignedStep(text: string, i: nat)
    requires i < |text| && Aligned(text, i)
    ensures Aligned(text, i + 1) && !Masked(MaskOf(text), i)
    ensures !StartsLineComment(MaskOf(text), i)
  {
    var m := MaskOf(text);
    assert m[i] == MaskedChar(text, i);
    if i + 1 < |text| { assert m[i + 1] == MaskedChar(text, i + 1); }
    match ModeAt(text, i) {
      case IdentBody =>
        if Is(m, i + 1, '"') { VisibleIsOriginal(text, i + 1); }
        if text[i] == '"' && Is(text, i + 1, '"') { assert ModeAt(text, i + 1).IdentSkip?; }
      case IdentSkip =>
      case Normal => AlignedNormalStep(text, i);
      case _ => AlignedMaskedStep(text, i);
    }
  }

  lemma WordStartsAt(m: string, i: nat, w: string)
    requires w != []
    ensures StartsWith(m, i, w) ==> m[i] == w[0]
  {
    if StartsWith(m, i, w) { assert m[i..i + |w|][0] == m[i]; }
  }

  /** A blank starts no token. */
  lemma BlankIsOrdinary(m: string, i: nat)
    requires i < |m| && IsBlank(m[i]) && ModeAt(m, i).Normal?
    ensures ModeAt(m, i + 1).Normal? && !Masked(m, i) && !StartsLineComment(m, i)
  {
    WordStartsAt(m, i, "--");
    WordStartsAt(m, i, "/*");
  }

  lemma AlignedMaskedStep(text: string, i: nat)
    requires i < |text| && Aligned(text, i) && Masked(text, i)
    requires !ModeAt(text, i).InIdent()
    ensures Aligned(text, i + 1) && !Masked(MaskOf(text), i) && !StartsLineComment(MaskOf(text), i)
  {
    assert MaskOf(text)[i] == Blank(text[i]);
    BlankIsOrdinary(MaskOf(text), i);
    assert !ModeAt(text, i + 1).InIdent();
  }

  lemma AlignedNormalStep(text: string, i: nat)
    requires i < |text| && Aligned(text, i) && ModeAt(text, i).Normal?
    ensures Aligned(text, i + 1) && !Masked(MaskOf(text), i) && !StartsLineComment(MaskOf(text), i)
  {
    var m := MaskOf(text);
    if Masked(text, i) {
      AlignedMaskedStep(text, i);
    } else {
      assert m[i] == MaskedChar(text, i) == text[i];
      if StartsWith(m, i, "--") { VisibleWord(text, i, "--"); }
      if StartsWith(m, i, "/*") { VisibleWord(text, i, "/*"); }
      if TagLength(m, i) > 0 { VisibleTag(text, i); }
    }
  }

  lemma {:induction false} MaskIsAligned(text: string, i: nat)
    requires i <= |text|
    ensures Aligned(text, i)
  {
    if i > 0 {
      MaskIsAligned(text, i - 1);
      AlignedStep(text, i - 1);
    }
  }

  /** The mask has nothing left to mask, and no line comment. */
  lemma MaskHasNoTokens(text: string, i: nat)
    requires i < |MaskOf(text)|
    ensures !Masked(MaskOf(text), i) && !StartsLineComment(MaskOf(text), i)
    ensures i == |text| ==> ModeAt(MaskOf(text), i + 1).Normal?
  {
    if i < |text| {
      MaskIsAligned(text, i);
      AlignedStep(text, i);
    } else {
      MaskIsAligned(text, i);
      BlankIsOrdinary(MaskOf(text), i);
    }
  }

  lemma {:induction false} NoComments(text: string, n: nat)
    requires n <= |text| && forall i | 0 <= i < n :: !StartsLineComment(text, i)
    ensures CommentsBefore(text, n) == []
  {
    if n > 0 { NoComments(text, n - 1); }
  }

  /** Masking a masked text changes nothing and finds no line comment. */
  lemma MaskTwice(text: string)
    ensures MaskOf(MaskOf(text)) == MaskOf(text)
    ensures CommentsBefore(MaskOf(text), |MaskOf(text)|) == []
  {
    var m := MaskOf(text);
    forall i | 0 <= i < |m| ensures !Masked(m, i) && !StartsLineComment(m, i) {
      MaskHasNoTokens(text, i);
    }
    NoComments(m, |m|);
    MaskIsAligned(text, |text|);
    if |m| > |text| { MaskHasNoTokens(text, |text|); }
    assert !ModeAt(m, |m|).StrSkip?;
    assert |MaskOf(m)| == |m|;
    forall i | 0 <= i < |m| ensures MaskOf(m)[i] == m[i] {
      MaskHasNoTokens(text, i);
      assert MaskOf(m)[i] == MaskedChar(m, i);
    }
  }

  // --- classes of characters -------------------------------------------------------------------

  /** White space is what ECMAScript's `trim` and `\s` take for it, by code points. */
  lemma SpaceCodes(ch: char)
    ensures var n := ch as int;
      IsSpace(ch) <==>
        9 <= n <= 13 || n == 32 || n == 160 || n == 5760 || 8192 <= n <= 8202 || n == 8232 || n == 8233 || n == 8239
        || n == 8287 || n == 12288 || n == 65279
  {
  }

  /** A word is of ASCII letters, digits and underscores, and a name does not start with a digit. Letters are
      compared in upper case. */
  lemma WordCodes(ch: char)
    ensures var n := ch as int;
      && (IsLetter(ch) <==> 65 <= n <= 90 || n == 95 || 97 <= n <= 122)
      && (IsWord(ch) <==> IsLetter(ch) || 48 <= n <= 57)
      && Text.Upper(ch) as int == if 97 <= n <= 122 then n - 32 else n
  {
  }

  predicate IsName(name: string) { (name != "" ==> IsLetter(name[0])) && forall c | c in name :: IsWord(c) }

  /** A dollar-quote delimiter is a name, possibly empty, between two dollar signs. */
  lemma TagIsName(name: string)
    ensures IsTag("$" + name + "$") <==> IsName(name)
  {
    var t := "$" + name + "$";
    assert forall k | 1 <= k < |t| - 1 :: t[k] == name[k - 1];
    assert forall k | 0 <= k < |name| :: name[k] == t[k + 1];
  }
}
