/** The hand-written SQL lexer of scripts/validate-migrations.ts: it blanks out comments, string
    literals and dollar-quoted bodies in place, and collects the text of line comments.

    The reference is an automaton that reads the text one character at a time (`Step`, `ModeAt`);
    `Scanner.Mask` is the lexer with its nested loops, proved to blank exactly the characters that the
    automaton classifies as masked. */
module SqlScanner {
  import opened Text

  /** The automaton's mode before it reads a character. `*Skip` modes read the second character of a
      two-character token; the dollar modes count the characters left in a delimiter. */
  datatype Mode =
    | Normal
    | Line
    | Block(depth: nat)
    | BlockSkip(depth: nat)
    | StrBody
    | StrSkip
    | IdentBody
    | IdentSkip
    | DollarOpen(tag: string, left: nat)
    | DollarBody(tag: string)
    | DollarClose(left: nat)
  {
    predicate InIdent() { IdentBody? || IdentSkip? }
  }

  // --- reading the text ------------------------------------------------------------------------

  /** `text[i] === ch`, false past the end. */
  predicate Is(text: string, i: nat, ch: char) {
    i < |text| && text[i] == ch
  }

  /** `text.startsWith(w, i)`. */
  predicate StartsWith(text: string, i: nat, w: string) {
    i + |w| <= |text| && text[i..i + |w|] == w
  }

  /** `text.indexOf(w, from)`, with the length of the text standing for -1. */
  function IndexOf(text: string, w: string, from: nat): (j: nat)
    requires from <= |text| && w != []
    ensures from <= j <= |text|
    ensures j < |text| ==> StartsWith(text, j, w)
    ensures forall k :: from <= k < j ==> !StartsWith(text, k, w)
    decreases |text| - from
  {
    if from == |text| || StartsWith(text, from, w) then from else IndexOf(text, w, from + 1)
  }

  predicate IsLetter(ch: char) {
    'A' <= ch <= 'Z' || 'a' <= ch <= 'z' || ch == '_'
  }

  predicate IsWord(ch: char) {
    IsLetter(ch) || '0' <= ch <= '9'
  }

  /** The end of the run of word characters that starts at `i`. */
  function WordEnd(text: string, i: nat): (j: nat)
    requires i <= |text|
    ensures i <= j <= |text|
    ensures forall k :: i <= k < j ==> IsWord(text[k])
    ensures j < |text| ==> !IsWord(text[j])
    decreases |text| - i
  {
    if i < |text| && IsWord(text[i]) then WordEnd(text, i + 1) else i
  }

  /** A dollar-quote delimiter: `$$` or `$name$`. */
  predicate IsTag(t: string) {
    && |t| >= 2 && t[0] == '$' && t[|t| - 1] == '$'
    && (|t| == 2 || (IsLetter(t[1]) && forall k :: 1 <= k < |t| - 1 ==> IsWord(t[k])))
  }

  /** The length of the delimiter that the lexer's pattern matches at `i`, or 0. */
  function TagLength(text: string, i: nat): (n: nat)
    requires i <= |text|
    ensures n > 0 ==> i + n <= |text| && IsTag(text[i..i + n])
  {
    if !Is(text, i, '$') then 0
    else if Is(text, i + 1, '$') then 2
    else if i + 1 < |text| && IsLetter(text[i + 1]) then
      var e := WordEnd(text, i + 1);
      if Is(text, e, '$') then e + 1 - i else 0
    else 0
  }

  /** The pattern finds a delimiter whenever one stands at `i`. */
  lemma TagLengthFinds(text: string, i: nat, n: nat)
    requires i + n <= |text| && IsTag(text[i..i + n])
    ensures TagLength(text, i) == n
  {
    var t := text[i..i + n];
    assert forall k :: 0 <= k < n ==> t[k] == text[i + k];
    if n > 2 {
      assert !IsWord('$');
      assert text[i + 1] == t[1];
      var e := WordEnd(text, i + 1);
      assert text[i + n - 1] == t[n - 1];
      assert e == i + n - 1;
    }
  }

  // --- the reference automaton -----------------------------------------------------------------

  /** The mode after reading character `i` in mode `m`. */
  function Step(text: string, i: nat, m: Mode): Mode
    requires i < |text|
  {
    match m
    case Normal =>
      if StartsWith(text, i, "--") then Line
      else if StartsWith(text, i, "/*") then BlockSkip(1)
      else if text[i] == '\'' then StrBody
      else if text[i] == '"' then IdentBody
      else if TagLength(text, i) > 0 then
        DollarOpen(text[i..i + TagLength(text, i)], TagLength(text, i) - 1)
      else Normal
    case Line => if Is(text, i + 1, '\n') then Normal else Line
    case Block(d) =>
      if StartsWith(text, i, "/*") then BlockSkip(d + 1)
      else if StartsWith(text, i, "*/") && d > 0 then BlockSkip(d - 1)
      else m
    case BlockSkip(d) => if d == 0 then Normal else Block(d)
    case StrBody =>
      if text[i] == '\'' then if Is(text, i + 1, '\'') then StrSkip else Normal
      else if text[i] == '\\' then StrSkip
      else StrBody
    case StrSkip => StrBody
    case IdentBody =>
      if text[i] == '"' then if Is(text, i + 1, '"') then IdentSkip else Normal
      else IdentBody
    case IdentSkip => IdentBody
    case DollarOpen(tag, left) => if left <= 1 then DollarBody(tag) else DollarOpen(tag, left - 1)
    case DollarBody(tag) => if |tag| >= 2 && StartsWith(text, i, tag) then DollarClose(|tag| - 1) else m
    case DollarClose(left) => if left <= 1 then Normal else DollarClose(left - 1)
  }

  /** The mode before character `i`. */
  function ModeAt(text: string, i: nat): Mode
    requires i <= |text|
  {
    if i == 0 then Normal else Step(text, i - 1, ModeAt(text, i - 1))
  }

  /** Character `i` belongs to a comment, a string literal or a dollar-quoted body, delimiters
      included. Quoted identifiers are not masked. */
  predicate Masked(text: string, i: nat)
    requires i < |text|
  {
    match ModeAt(text, i)
    case Normal => !Step(text, i, Normal).Normal? && !Step(text, i, Normal).IdentBody?
    case IdentBody => false
    case IdentSkip => false
    case _ => true
  }

  function Blank(ch: char): char {
    if ch == '\n' || ch == '\r' then ch else ' '
  }

  function MaskedChar(text: string, i: nat): char
    requires i < |text|
  {
    if Masked(text, i) then Blank(text[i]) else text[i]
  }

  /** The text with every masked character blanked. A text that ends right after a backslash inside
      a string literal gains one blank. */
  function MaskOf(text: string): (m: string)
    ensures |text| <= |m|
    ensures forall i :: 0 <= i < |text| ==> m[i] == MaskedChar(text, i)
  {
    seq(|text|, i requires 0 <= i < |text| => MaskedChar(text, i))
    + if ModeAt(text, |text|).StrSkip? then " " else ""
  }

  predicate IsSpace(ch: char) {
    ch == ' ' || ch == '\t' || ch == '\n' || ch == '\r' || ch == '\U{000B}' || ch == '\U{000C}'
    || ch == '\U{00A0}' || ch == '\U{FEFF}' || ch == '\U{2028}' || ch == '\U{2029}' || ch == '\U{1680}'
    || '\U{2000}' <= ch <= '\U{200A}' || ch == '\U{202F}' || ch == '\U{205F}' || ch == '\U{3000}'
  }

  function Trim(s: string): string {
    if s != [] && IsSpace(s[0]) then Trim(s[1..])
    else if s != [] && IsSpace(s[|s| - 1]) then Trim(s[..|s| - 1])
    else s
  }

  predicate StartsLineComment(text: string, i: nat)
    requires i < |text|
  {
    ModeAt(text, i).Normal? && StartsWith(text, i, "--")
  }

  /** The line comments that start before `n`, in order. */
  function CommentsBefore(text: string, n: nat): seq<string>
    requires n <= |text|
  {
    if n == 0 then []
    else if StartsLineComment(text, n - 1) then
      CommentsBefore(text, n - 1) + [Trim(text[n + 1..LineEnd(text, n - 1)])]
    else CommentsBefore(text, n - 1)
  }

  /** The end of the line comment that starts at `i`. */
  function LineEnd(text: string, i: nat): (j: nat)
    requires i <= |text|
    ensures i <= j <= |text|
    ensures StartsWith(text, i, "--") ==> i + 2 <= j
  {
    var j := IndexOf(text, "\n", i);
    assert StartsWith(text, i, "--") ==>
      text[i] == text[i..i + 2][0] && text[i + 1] == text[i..i + 2][1];
    assert j < |text| ==> text[j] == text[j..j + 1][0];
    j
  }

  // --- the comments collected, in terms of the text --------------------------------------------

  predicate AllBlank(text: string, from: nat, end: nat) {
    forall k | from <= k < end && k < |text| :: IsSpace(text[k])
  }

  /** From `a` to `b` is what is left between `from` and `end` without the white space at its two ends. */
  predicate TrimsTo(text: string, from: nat, a: nat, b: nat, end: nat) {
    && from <= a <= b <= end <= |text| && AllBlank(text, from, a) && AllBlank(text, b, end)
    && (a < b ==> !IsSpace(text[a]) && !IsSpace(text[b - 1]))
  }

  ghost predicate IsTrimmed(text: string, from: nat, end: nat, c: string) {
    exists a: nat, b: nat :: TrimsTo(text, from, a, b, end) && c == text[a..b]
  }

  predicate IsLineEnd(text: string, i: nat, e: nat) {
    i <= e <= |text| && (forall k | i <= k < e :: text[k] != '\n') && (e < |text| ==> text[e] == '\n')
  }

  /** `c` is what follows the two dashes at `i` on their line, trimmed. */
  ghost predicate IsCommentAt(text: string, i: nat, c: string) {
    exists e: nat | IsLineEnd(text, i, e) :: IsTrimmed(text, i + 2, e, c)
  }

  /** The places before `n` where line comments start, in order. */
  function CommentStarts(text: string, n: nat): seq<nat> {
    Where(n, (i: nat) => i < |text| && StartsLineComment(text, i))
  }

  /** The list has the comment of each place where one starts, in order. */
  ghost predicate Collects(text: string, n: nat, comments: seq<string>)
    requires n <= |text|
  {
    var starts := CommentStarts(text, n);
    |comments| == |starts| && forall k | 0 <= k < |starts| :: IsCommentAt(text, starts[k], comments[k])
  }

  lemma {:induction false} TrimFinds(text: string, from: nat, end: nat) returns (a: nat, b: nat)
    requires from <= end <= |text|
    ensures TrimsTo(text, from, a, b, end) && Trim(text[from..end]) == text[a..b]
    decreases end - from
  {
    hide IsSpace;
    var s := text[from..end];
    if from < end && IsSpace(text[from]) {
      a, b := TrimFinds(text, from + 1, end);
      assert s[0] == text[from] && s[1..] == text[from + 1..end];
    } else if from < end && IsSpace(text[end - 1]) {
      a, b := TrimFinds(text, from, end - 1);
      assert s[0] == text[from] && s[|s| - 1] == text[end - 1] && s[..|s| - 1] == text[from..end - 1];
    } else {
      a, b := from, end;
      assert from < end ==> s[0] == text[from] && s[|s| - 1] == text[end - 1];
    }
  }

  lemma BoundsAreUnique(text: string, from: nat, end: nat, a: nat, b: nat, p: nat, q: nat)
    requires TrimsTo(text, from, a, b, end) && TrimsTo(text, from, p, q, end)
    ensures a < b <==> p < q
    ensures a < b ==> a == p && b == q
    ensures a < b <==> !AllBlank(text, from, end)
  {
    hide IsSpace;
  }

  /** The slice determines the trimmed text, which is empty exactly if the slice is blank. */
  lemma TrimmedIsUnique(text: string, from: nat, end: nat, c: string, d: string)
    requires IsTrimmed(text, from, end, c) && IsTrimmed(text, from, end, d)
    ensures c == d && (c == "" <==> AllBlank(text, from, end))
  {
    hide AllBlank, IsSpace;
    var a: nat, b: nat :| TrimsTo(text, from, a, b, end) && c == text[a..b];
    var p: nat, q: nat :| TrimsTo(text, from, p, q, end) && d == text[p..q];
    BoundsAreUnique(text, from, end, a, b, p, q);
  }

  lemma LineEndIsFirst(text: string, i: nat)
    requires i < |text| && StartsLineComment(text, i)
    ensures IsLineEnd(text, i, LineEnd(text, i))
  {
    var e := LineEnd(text, i);
    forall k | i <= k < e ensures text[k] != '\n' {
      if text[k] == '\n' { assert text[k..k + 1] == "\n"; assert StartsWith(text, k, "\n"); }
    }
    assert e < |text| ==> text[e] == text[e..e + 1][0];
  }

  lemma CommentIsFound(text: string, i: nat)
    requires i < |text| && StartsLineComment(text, i)
    ensures IsCommentAt(text, i, Trim(text[i + 2..LineEnd(text, i)]))
  {
    LineEndIsFirst(text, i);
    var a, b := TrimFinds(text, i + 2, LineEnd(text, i));
    hide *;
    assert IsTrimmed(text, i + 2, LineEnd(text, i), Trim(text[i + 2..LineEnd(text, i)]));
  }

  lemma {:induction false} CommentsAreCollected(text: string, n: nat)
    requires n <= |text|
    ensures Collects(text, n, CommentsBefore(text, n))
  {
    hide IsCommentAt, StartsLineComment, Trim, LineEnd;
    if n > 0 {
      CommentsAreCollected(text, n - 1);
      if StartsLineComment(text, n - 1) { CommentIsFound(text, n - 1); }
    }
  }

  lemma CommentIsUnique(text: string, i: nat, c: string, d: string)
    requires IsCommentAt(text, i, c) && IsCommentAt(text, i, d)
    ensures c == d
  {
    hide IsTrimmed;
    var e: nat :| IsLineEnd(text, i, e) && IsTrimmed(text, i + 2, e, c);
    var f: nat :| IsLineEnd(text, i, f) && IsTrimmed(text, i + 2, f, d);
    assert e == f;
    TrimmedIsUnique(text, i + 2, e, c, d);
  }

  /** A text determines its comments. */
  lemma CollectedAreUnique(text: string, n: nat, c: seq<string>, d: seq<string>)
    requires n <= |text| && Collects(text, n, c) && Collects(text, n, d)
    ensures c == d
  {
    var starts := CommentStarts(text, n);
    hide CommentStarts, IsCommentAt;
    forall k | 0 <= k < |starts| ensures c[k] == d[k] { CommentIsUnique(text, starts[k], c[k], d[k]); }
  }

  // --- the lexer -------------------------------------------------------------------------------

  /** The lexer is at `index` with everything before it classified. */
  ghost predicate Resting(text: string, index: nat) {
    && index <= |text| + 1
    && (index < |text| ==> ModeAt(text, index).Normal?)
    && (index >= |text| ==> (index == |text| + 1 <==> ModeAt(text, |text|).StrSkip?))
  }

  /** No token starts strictly between `a` and `b`, and every character from `a` on is masked. */
  ghost predicate MaskedRun(text: string, a: nat, b: nat) {
    forall k | a <= k < b && k < |text| :: Masked(text, k) && (a < k ==> !ModeAt(text, k).Normal?)
  }

  lemma NoCommentsInside(text: string, a: nat, b: nat)
    requires a < b <= |text|
    requires forall k | a < k < b :: !ModeAt(text, k).Normal?
    ensures CommentsBefore(text, b) == CommentsBefore(text, a + 1)
  {
    if a + 1 < b { NoCommentsInside(text, a, b - 1); }
  }

  /** `--` up to the end of the line. */
  method ScanLineComment(text: string, start: nat) returns (index: nat)
    requires start < |text| && StartsLineComment(text, start)
    ensures index == LineEnd(text, start)
    ensures start < index <= |text| && Resting(text, index) && MaskedRun(text, start, index)
    ensures forall k | start < k < index :: ModeAt(text, k).Line?
  {
    index := IndexOf(text, "\n", start);
    LineEndIsFirst(text, start);
    forall k | start < k <= index
      ensures ModeAt(text, k) == if k < index || index == |text| then Line else Normal
    {
      LineInside(text, start, index, k);
    }
  }

  lemma {:induction false} LineInside(text: string, start: nat, end: nat, k: nat)
    requires start < k <= end <= |text| && StartsLineComment(text, start)
    requires (forall j | start <= j < end :: text[j] != '\n') && (end < |text| ==> text[end] == '\n')
    ensures ModeAt(text, k) == if k < end || end == |text| then Line else Normal
  {
    if k > start + 1 { LineInside(text, start, end, k - 1); }
  }

  /** What the automaton does inside a block comment, from the lexer's point of view. */
  lemma BlockStep(text: string, i: nat, depth: nat)
    requires i < |text| && depth > 0 && ModeAt(text, i) == Block(depth)
    ensures Masked(text, i)
    ensures StartsWith(text, i, "/*") ==>
      i + 2 <= |text| && Masked(text, i + 1) && !ModeAt(text, i + 1).Normal?
      && ModeAt(text, i + 2) == Block(depth + 1)
    ensures !StartsWith(text, i, "/*") && StartsWith(text, i, "*/") ==>
      i + 2 <= |text| && Masked(text, i + 1) && !ModeAt(text, i + 1).Normal?
      && ModeAt(text, i + 2) == if depth == 1 then Normal else Block(depth - 1)
    ensures !StartsWith(text, i, "/*") && !StartsWith(text, i, "*/") ==>
      ModeAt(text, i + 1) == Block(depth)
  {
    if StartsWith(text, i, "/*") {
      assert ModeAt(text, i + 1) == BlockSkip(depth + 1);
    } else if StartsWith(text, i, "*/") {
      assert ModeAt(text, i + 1) == BlockSkip(depth - 1);
    }
  }

  lemma BlockOpens(text: string, i: nat)
    requires i < |text| && ModeAt(text, i).Normal? && StartsWith(text, i, "/*")
    ensures i + 2 <= |text| && ModeAt(text, i + 2) == Block(1)
    ensures Masked(text, i) && Masked(text, i + 1) && !ModeAt(text, i + 1).Normal?
  {
    assert text[i] == text[i..i + 2][0];
    assert ModeAt(text, i + 1) == BlockSkip(1);
  }

  /** A block comment, with the nesting depth; it may run to the end of the text. */
  method ScanBlockComment(text: string, start: nat) returns (index: nat)
    requires start < |text| && ModeAt(text, start).Normal? && StartsWith(text, start, "/*")
    ensures start < index <= |text| && Resting(text, index) && MaskedRun(text, start, index)
  {
    hide ModeAt, Masked;
    var depth := 1;
    index := start + 2;
    BlockOpens(text, start);
    while index < |text| && depth > 0
      invariant start + 2 <= index <= |text| && depth >= 0
      invariant ModeAt(text, index) == if depth == 0 then Normal else Block(depth)
      invariant MaskedRun(text, start, index)
      decreases |text| - index
    {
      BlockStep(text, index, depth);
      if StartsWith(text, index, "/*") {
        depth := depth + 1;
        index := index + 2;
      } else if StartsWith(text, index, "*/") {
        depth := depth - 1;
        index := index + 2;
      } else {
        index := index + 1;
      }
    }
  }

  lemma StringOpens(text: string, i: nat)
    requires i < |text| && ModeAt(text, i).Normal? && text[i] == '\''
    ensures Masked(text, i) && ModeAt(text, i + 1).StrBody?
  {
  }

  lemma StringStep(text: string, i: nat)
    requires i < |text| && ModeAt(text, i).StrBody?
    ensures Masked(text, i)
    ensures (text[i] == '\'' && Is(text, i + 1, '\'')) || text[i] == '\\' ==>
      ModeAt(text, i + 1).StrSkip?
      && (i + 1 < |text| ==> Masked(text, i + 1) && ModeAt(text, i + 2).StrBody?)
    ensures text[i] == '\'' && !Is(text, i + 1, '\'') ==> ModeAt(text, i + 1).Normal?
    ensures text[i] != '\'' && text[i] != '\\' ==> ModeAt(text, i + 1).StrBody?
  {
  }

  /** A string literal, with doubled quotes and backslash escapes. A backslash at the very end of
      the text moves the index one past the end. */
  method ScanString(text: string, start: nat) returns (index: nat)
    requires start < |text| && ModeAt(text, start).Normal? && text[start] == '\''
    ensures start < index && Resting(text, index) && MaskedRun(text, start, index)
  {
    hide ModeAt, Masked, Step;
    index := start + 1;
    StringOpens(text, start);
    while index < |text|
      invariant start < index <= |text| + 1
      invariant index <= |text| ==> ModeAt(text, index).StrBody?
      invariant index == |text| + 1 ==> ModeAt(text, |text|).StrSkip?
      invariant MaskedRun(text, start, index)
    {
      StringStep(text, index);
      if Is(text, index, '\'') && Is(text, index + 1, '\'') {
        index := index + 2;
      } else if Is(text, index, '\'') {
        index := index + 1;
        break;
      } else if text[index] == '\\' {
        index := index + 2;
      } else {
        index := index + 1;
      }
    }
  }

  lemma IdentOpens(text: string, i: nat)
    requires i < |text| && ModeAt(text, i).Normal? && text[i] == '"'
    ensures !Masked(text, i) && ModeAt(text, i + 1).IdentBody?
  {
  }

  lemma IdentStep(text: string, i: nat)
    requires i < |text| && ModeAt(text, i).IdentBody?
    ensures !Masked(text, i)
    ensures text[i] == '"' && Is(text, i + 1, '"') ==>
      !Masked(text, i + 1) && !ModeAt(text, i + 1).Normal? && ModeAt(text, i + 2).IdentBody?
    ensures text[i] == '"' && !Is(text, i + 1, '"') ==> ModeAt(text, i + 1).Normal?
    ensures text[i] != '"' ==> ModeAt(text, i + 1).IdentBody?
  {
  }

  /** A quoted identifier: skipped, not masked. */
  method ScanIdentifier(text: string, start: nat) returns (index: nat)
    requires start < |text| && ModeAt(text, start).Normal? && text[start] == '"'
    ensures start < index <= |text| && Resting(text, index)
    ensures forall k | start <= k < index :: !Masked(text, k)
    ensures forall k | start < k < index :: !ModeAt(text, k).Normal?
  {
    hide ModeAt, Masked, Step;
    index := start + 1;
    IdentOpens(text, start);
    while index < |text|
      invariant start < index <= |text|
      invariant ModeAt(text, index).IdentBody?
      invariant forall k | start <= k < index :: !Masked(text, k)
      invariant forall k | start < k < index :: !ModeAt(text, k).Normal?
    {
      IdentStep(text, index);
      if Is(text, index, '"') && Is(text, index + 1, '"') {
        index := index + 2;
      } else if Is(text, index, '"') {
        index := index + 1;
        break;
      } else {
        index := index + 1;
      }
    }
  }

  lemma {:induction false} DollarDelimiter(text: string, start: nat, tag: string, k: nat)
    requires start + |tag| <= |text| && |tag| >= 2 && ModeAt(text, start).Normal?
    requires Step(text, start, Normal) == DollarOpen(tag, |tag| - 1)
    requires 1 <= k <= |tag|
    ensures ModeAt(text, start + k) ==
      if k < |tag| then DollarOpen(tag, |tag| - k) else DollarBody(tag)
  {
    if k > 1 { DollarDelimiter(text, start, tag, k - 1); }
  }

  lemma {:induction false} DollarInside(text: string, from: nat, tag: string, k: nat)
    requires from <= k <= |text| && |tag| >= 2 && ModeAt(text, from) == DollarBody(tag)
    requires forall j | from <= j < k :: !StartsWith(text, j, tag)
    ensures ModeAt(text, k) == DollarBody(tag)
  {
    if k > from { DollarInside(text, from, tag, k - 1); }
  }

  lemma {:induction false} DollarClosing(text: string, close: nat, tag: string, k: nat)
    requires close + |tag| <= |text| && |tag| >= 2 && ModeAt(text, close) == DollarBody(tag)
    requires StartsWith(text, close, tag) && 1 <= k <= |tag|
    ensures ModeAt(text, close + k) == if k < |tag| then DollarClose(|tag| - k) else Normal
  {
    if k > 1 { DollarClosing(text, close, tag, k - 1); }
  }

  /** A dollar-quoted body, up to the next occurrence of its own delimiter or the end. */
  method ScanDollarQuote(text: string, start: nat) returns (index: nat)
    requires start < |text| && ModeAt(text, start).Normal?
    requires Step(text, start, Normal).DollarOpen?
    ensures start < index <= |text| && Resting(text, index) && MaskedRun(text, start, index)
  {
    hide ModeAt, Masked;
    var tag := text[start..start + TagLength(text, start)];
    var from := start + |tag|;
    var closing := IndexOf(text, tag, from);
    index := if closing == |text| then |text| else closing + |tag|;
    hide Step, TagLength, IndexOf, IsTag;
    DollarModes(text, start, tag, closing, index);
  }

  /** The modes of a dollar quote: its opening delimiter, its body and its closing delimiter. */
  lemma DollarModes(text: string, start: nat, tag: string, closing: nat, index: nat)
    requires start + |tag| <= closing <= |text| && |tag| >= 2
    requires ModeAt(text, start).Normal? && Step(text, start, Normal) == DollarOpen(tag, |tag| - 1)
    requires forall k | start + |tag| <= k < closing :: !StartsWith(text, k, tag)
    requires closing < |text| ==> StartsWith(text, closing, tag)
    requires index == if closing == |text| then |text| else closing + |tag|
    ensures Resting(text, index) && MaskedRun(text, start, index)
  {
    hide ModeAt, Masked, Step;
    forall k | start <= k < index && k < |text| ensures Masked(text, k) && (start < k ==> !ModeAt(text, k).Normal?) {
      if k == start {
        DollarMasked(text, k);
      } else if k <= start + |tag| {
        DollarDelimiter(text, start, tag, k - start);
        DollarMasked(text, k);
      } else if k <= closing {
        DollarDelimiter(text, start, tag, |tag|);
        DollarInside(text, start + |tag|, tag, k);
        DollarMasked(text, k);
      } else {
        DollarDelimiter(text, start, tag, |tag|);
        DollarInside(text, start + |tag|, tag, closing);
        DollarClosing(text, closing, tag, k - closing);
        DollarMasked(text, k);
      }
    }
    DollarDelimiter(text, start, tag, |tag|);
    DollarInside(text, start + |tag|, tag, closing);
    if closing < |text| {
      DollarClosing(text, closing, tag, |tag|);
    }
  }

  lemma DollarMasked(text: string, k: nat)
    requires k < |text|
    requires ModeAt(text, k).DollarOpen? || ModeAt(text, k).DollarBody? || ModeAt(text, k).DollarClose?
      || (ModeAt(text, k).Normal? && Step(text, k, Normal).DollarOpen?)
    ensures Masked(text, k)
  {
    hide ModeAt, Step;
  }

  /** Blanks `output[start..end)`; writing one past the end appends, as on a JavaScript array. */
  method MaskRange(output: seq<char>, start: nat, end: nat) returns (masked: seq<char>)
    requires start < end <= |output| + 1 && start < |output|
    ensures |masked| == if end > |output| then end else |output|
    ensures forall k | 0 <= k < |output| ::
      masked[k] == if start <= k < end then Blank(output[k]) else output[k]
    ensures end == |output| + 1 ==> masked[|output|] == ' '
  {
    masked := output;
    var cursor := start;
    while cursor < end
      invariant start <= cursor <= end
      invariant |masked| == if cursor > |output| then cursor else |output|
      invariant forall k | 0 <= k < |output| ::
        masked[k] == if start <= k < cursor then Blank(output[k]) else output[k]
      invariant cursor == |output| + 1 ==> masked[|output|] == ' '
    {
      if cursor == |masked| {
        masked := masked + [' '];
      } else if masked[cursor] != '\n' && masked[cursor] != '\r' {
        masked := masked[cursor := ' '];
      }
      cursor := cursor + 1;
    }
  }

  /** The characters before `index` are masked as the automaton says, the rest is untouched. */
  ghost predicate MaskedUpTo(text: string, output: seq<char>, index: nat) {
    && |output| == (if index == |text| + 1 then index else |text|)
    && (forall k | 0 <= k < |text| ::
        output[k] == if k < index then MaskedChar(text, k) else text[k])
    && (index == |text| + 1 ==> output[|text|] == ' ')
  }

  /** One round of masking moves the lexer over one token. */
  lemma MaskedFurther(text: string, before: seq<char>, a: nat, after: seq<char>, b: nat)
    requires a < |text| && a < b <= |text| + 1 && MaskedUpTo(text, before, a)
    requires MaskedRun(text, a, b)
    requires |after| == if b > |text| then b else |text|
    requires forall k | 0 <= k < |text| :: after[k] == if a <= k < b then Blank(before[k]) else before[k]
    requires b == |text| + 1 ==> after[|text|] == ' '
    ensures MaskedUpTo(text, after, b)
  {
    hide ModeAt, Masked;
  }

  lemma UnmaskedFurther(text: string, output: seq<char>, a: nat, b: nat)
    requires a < b <= |text| && MaskedUpTo(text, output, a)
    requires forall k | a <= k < b :: !Masked(text, k)
    ensures MaskedUpTo(text, output, b)
  {
    hide ModeAt, Masked;
  }

  lemma OrdinaryCharacter(text: string, i: nat)
    requires i < |text| && ModeAt(text, i).Normal?
    requires !StartsWith(text, i, "--") && !StartsWith(text, i, "/*")
    requires text[i] != '\'' && text[i] != '"' && TagLength(text, i) == 0
    ensures !Masked(text, i) && ModeAt(text, i + 1).Normal?
  {
  }

  /** What a line comment adds to the comments found. */
  lemma CommentFound(text: string, a: nat, b: nat)
    requires a < b <= |text| && forall k | a < k < b :: !ModeAt(text, k).Normal?
    ensures CommentsBefore(text, b) ==
      if StartsLineComment(text, a) then CommentsBefore(text, a) + [Trim(text[a + 2..LineEnd(text, a)])]
      else CommentsBefore(text, a)
  {
    hide ModeAt;
    NoCommentsInside(text, a, b);
  }

  method MaskSqlCommentsAndStrings(text: string) returns (sql: string, lineComments: seq<string>)
    ensures sql == MaskOf(text)
    ensures lineComments == CommentsBefore(text, |text|) && Collects(text, |text|, lineComments)
  {
    sql, lineComments := text, [];
    var index := 0;
    assert MaskedUpTo(text, sql, 0);
    while index < |text|
      invariant Resting(text, index) && MaskedUpTo(text, sql, index)
      invariant lineComments == CommentsBefore(text, if index <= |text| then index else |text|)
      decreases |text| + 1 - index
    {
      hide ModeAt, Masked, MaskOf, CommentsBefore, Trim, LineEnd, Step;
      var start := index;
      ghost var before := sql;
      if StartsWith(text, index, "--") {
        index := ScanLineComment(text, start);
        lineComments := lineComments + [Trim(text[start + 2..index])];
        sql := MaskRange(sql, start, index);
        MaskedFurther(text, before, start, sql, index);
      } else if StartsWith(text, index, "/*") {
        index := ScanBlockComment(text, start);
        sql := MaskRange(sql, start, index);
        MaskedFurther(text, before, start, sql, index);
      } else if text[index] == '\'' {
        index := ScanString(text, start);
        sql := MaskRange(sql, start, index);
        MaskedFurther(text, before, start, sql, index);
      } else if text[index] == '"' {
        index := ScanIdentifier(text, start);
        UnmaskedFurther(text, sql, start, index);
      } else if TagLength(text, index) > 0 {
        DollarStarts(text, index);
        index := ScanDollarQuote(text, start);
        sql := MaskRange(sql, start, index);
        MaskedFurther(text, before, start, sql, index);
      } else {
        OrdinaryCharacter(text, index);
        index := index + 1;
        UnmaskedFurther(text, sql, start, index);
      }
      CommentFound(text, start, if index <= |text| then index else |text|);
    }
    MaskComplete(text, sql, index);
    CommentsAreCollected(text, |text|);
  }

  lemma MaskComplete(text: string, output: seq<char>, index: nat)
    requires index >= |text| && Resting(text, index) && MaskedUpTo(text, output, index)
    ensures output == MaskOf(text)
  {
    assert |output| == |MaskOf(text)|;
  }

  lemma DollarStarts(text: string, i: nat)
    requires i < |text| && !StartsWith(text, i, "--") && !StartsWith(text, i, "/*")
    requires text[i] != '\'' && text[i] != '"' && TagLength(text, i) > 0
    ensures Step(text, i, Normal).DollarOpen?
  {
  }
}
