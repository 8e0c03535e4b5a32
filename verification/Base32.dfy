/** `decodeBase32` of src/auth/security.utils.ts. Its accumulator is a signed 32-bit number that is never
    masked and wraps; the decoding is proved equal to that of the unbounded number (section 6 of RFC
    4648), and to invert the encoder. Upper-casing is that of ASCII letters. */
module Base32 {
  import opened BitOps
  import opened Text

  type Byte = x: int | 0 <= x < 256

  // --- digits of the text ----------------------------------------------------------------------

  function StripPadding(s: string): string {
    if s != [] && s[|s| - 1] == '=' then StripPadding(s[..|s| - 1]) else s
  }

  function UpperCase(s: string): string {
    seq(|s|, i requires 0 <= i < |s| => Upper(s[i]))
  }

  /** The place of the character in the alphabet A-Z 2-7, or -1. */
  function IndexOf(ch: char): (i: int)
    ensures -1 <= i < 32
  {
    if 'A' <= ch <= 'Z' then (ch - 'A') as int
    else if '2' <= ch <= '7' then (ch - '2') as int + 26
    else -1
  }

  /** The values of the valid characters, in order. */
  function Digits(s: string): (d: seq<int>)
    ensures forall i :: 0 <= i < |d| ==> 0 <= d[i] < 32
  {
    if s == [] then []
    else
      var d := IndexOf(s[|s| - 1]);
      Digits(s[..|s| - 1]) + if d == -1 then [] else [d]
  }

  /** The digits read as one unbounded number. */
  function Number(d: seq<int>): (v: nat)
    requires forall i :: 0 <= i < |d| ==> 0 <= d[i] < 32
  {
    if d == [] then 0 else 32 * Number(d[..|d| - 1]) + d[|d| - 1]
  }

  /** The number as `n` bytes, the most significant first. */
  function ToBytes(v: nat, n: nat): (b: seq<Byte>)
    ensures |b| == n
  {
    if n == 0 then [] else ToBytes(v / 256, n - 1) + [v % 256]
  }

  /** The reference decoding: of the 5n bits of n digits, the first 8 * floor(5n / 8), as bytes. */
  function Decoded(d: seq<int>): (b: seq<Byte>)
    requires forall i :: 0 <= i < |d| ==> 0 <= d[i] < 32
    ensures |b| == 5 * |d| / 8
  {
    ToBytes(Shr(Number(d), 5 * |d| % 8), 5 * |d| / 8)
  }

  // --- the decoder -----------------------------------------------------------------------------

  /** Shifting left by five leaves five zero bits. */
  lemma ShiftedRegister(value: int) returns (c: nat)
    ensures ToUint32(Shl32(value, 5)) == (32 * ToUint32(value)) % TWO_32 == Shl(c, 5)
  {
    var u := ToUint32(value);
    ShlFive(u);
    c := MultipleOf32(u);
    ShlFive(c);
  }

  lemma MultipleOf32(u: nat) returns (c: nat)
    ensures (32 * u) % TWO_32 == 32 * c
  {
    var q, r := 32 * u / TWO_32, (32 * u) % TWO_32;
    assert 32 * u == TWO_32 * q + r;
    c := u - 0x800_0000 * q;
  }

  /** The accumulator shifted by five with a digit or-ed in, modulo 2^32. */
  lemma ShiftIn(value: int, digit: int)
    requires 0 <= digit < 32
    ensures ToUint32(Or32(Shl32(value, 5), digit)) == (ToUint32(value) * 32 + digit) % TWO_32
  {
    hide Shl32, BitOr, Shl;
    var c := ShiftedRegister(value);
    ShlFive(1);
    OrIsSum(c, 5, digit);
    assert ToUint32(digit) == digit;
    AddModulo(32 * ToUint32(value), digit);
  }

  /** The byte taken from the wrapped accumulator is that of the unbounded one. */
  lemma ByteOut(value: int, v: nat, k: nat)
    requires ToUint32(value) == v % TWO_32 && k <= 4
    ensures And32(Shr32(value, k), 255) == Shr(v, k) % 256
  {
    hide Shr, And32;
    And32Masks(Shr32(value, k));
    SameByte(v, k);
  }

  /** Halving k times takes the upper part along as a multiple of 2^(32 - k). */
  lemma {:induction false} HalveSplit(q: nat, w: nat, k: nat)
    requires k <= 4
    ensures Shr(TWO_32 * q + w, k) ==
      (if k == 0 then TWO_32 else if k == 1 then TWO_31 else if k == 2 then 0x4000_0000
       else if k == 3 then 0x2000_0000 else 0x1000_0000) * q + Shr(w, k)
  {
    if k > 0 { HalveSplit(q, w, k - 1); }
  }

  lemma SameByte(v: nat, k: nat)
    requires k <= 4
    ensures Shr(v % TWO_32, k) % 256 == Shr(v, k) % 256
  {
    var q, w := v / TWO_32, v % TWO_32;
    assert v == TWO_32 * q + w;
    HalveSplit(q, w, k);
    hide Shr;
    if k == 0 { AddMultiple(Shr(w, k), 0x100_0000 * q); }
    else if k == 1 { AddMultiple(Shr(w, k), 0x80_0000 * q); }
    else if k == 2 { AddMultiple(Shr(w, k), 0x40_0000 * q); }
    else if k == 3 { AddMultiple(Shr(w, k), 0x20_0000 * q); }
    else { AddMultiple(Shr(w, k), 0x10_0000 * q); }
  }

  lemma AddMultiple(y: nat, z: nat)
    ensures (256 * z + y) % 256 == y % 256
  {
  }

  /** One digit more leaves the bits before the last `bits` as they were. */
  lemma OutputKept(v: nat, digit: int, bits: nat)
    requires 0 <= digit < 32
    ensures Shr(32 * v + digit, bits + 5) == Shr(v, bits)
    ensures bits >= 3 ==> Shr(32 * v + digit, bits - 3) / 256 == Shr(v, bits)
  {
    hide Shr;
    var w := 32 * v + digit;
    ShrSum(w, 5, bits);
    ShrSmall(w);
    assert Shr(w, 5) == v;
    if bits >= 3 {
      var u := Shr(w, bits - 3);
      ShrSum(w, bits - 3, 8);
      assert Shr(u, 4) == u / 16 by { ShrSmall(u); }
      assert Shr(u, 8) == Shr(Shr(u, 4), 4) by { ShrSum(u, 4, 4); }
      ShrSmall(Shr(u, 4));
    }
  }

  /** What one valid character does to the decoder's registers. */
  ghost predicate Registers(d: seq<int>, bits: int, value: int, output: seq<Byte>)
    requires forall i :: 0 <= i < |d| ==> 0 <= d[i] < 32
  {
    && 0 <= bits && 5 * |d| == 8 * |output| + bits
    && ToUint32(value) == Number(d) % TWO_32
    && output == ToBytes(Shr(Number(d), bits), |output|)
  }

  lemma AddDigit(d: seq<int>, bits: int, value: int, output: seq<Byte>, digit: int)
    requires forall i :: 0 <= i < |d| ==> 0 <= d[i] < 32
    requires 0 <= digit < 32 && Registers(d, bits, value, output)
    ensures Registers(d + [digit], bits + 5, Or32(Shl32(value, 5), digit), output)
    ensures bits >= 3 ==>
      Shr(Number(d + [digit]), bits - 3) / 256 == Shr(Number(d + [digit]), bits + 5)
  {
    var v := Number(d);
    assert (d + [digit])[..|d|] == d;
    assert Number(d + [digit]) == 32 * v + digit;
    hide Number, Or32, Shl32, ToUint32, Shr;
    ShiftIn(value, digit);
    OutputKept(v, digit, bits);
    ShiftModulo(v, digit);
  }

  lemma ShiftModulo(v: nat, digit: int)
    ensures (v % TWO_32 * 32 + digit) % TWO_32 == (32 * v + digit) % TWO_32
  {
    var q, w := v / TWO_32, v % TWO_32;
    assert v == TWO_32 * q + w;
    var z := 32 * q;
    assert 32 * v + digit == TWO_32 * z + (32 * w + digit);
    AddModuloMultiple(32 * w + digit, z);
  }

  lemma AddModuloMultiple(x: int, z: int)
    ensures (TWO_32 * z + x) % TWO_32 == x % TWO_32
  {
  }

  lemma TakeByte(d: seq<int>, bits: int, value: int, output: seq<Byte>)
    requires forall i :: 0 <= i < |d| ==> 0 <= d[i] < 32
    requires 8 <= bits <= 12 && Registers(d, bits, value, output)
    requires Shr(Number(d), bits - 8) / 256 == Shr(Number(d), bits)
    ensures 0 <= And32(Shr32(value, bits - 8), 255) < 256
    ensures Registers(d, bits - 8, value, output + [And32(Shr32(value, bits - 8), 255)])
  {
    ByteOut(value, Number(d), bits - 8);
    hide Number, And32, Shr32, Shr, ToUint32;
    var n := Shr(Number(d), bits - 8);
    assert ToBytes(n, |output| + 1) == ToBytes(n / 256, |output|) + [n % 256];
  }

  method DecodeBase32(input: string) returns (output: seq<Byte>)
    ensures output == Decoded(Digits(UpperCase(StripPadding(input))))
  {
    hide Number, And32, Or32, Shl32, Shr32, ToUint32, Shr, ToBytes, Decoded, Registers;
    var normalized := UpperCase(StripPadding(input));
    var bits, value := 0, 0;
    output := [];
    ghost var d: seq<int> := [];
    NoDigits();
    for i := 0 to |normalized|
      invariant d == Digits(normalized[..i])
      invariant 0 <= bits < 8 && Registers(d, bits, value, output)
    {
      var index := IndexOf(normalized[i]);
      assert normalized[..i + 1][..i] == normalized[..i];
      if index == -1 { continue; }
      AddDigit(d, bits, value, output, index);
      d := d + [index];
      value := Or32(Shl32(value, 5), index);
      bits := bits + 5;
      if bits >= 8 {
        TakeByte(d, bits, value, output);
        output := output + [And32(Shr32(value, bits - 8), 255)];
        bits := bits - 8;
      }
    }
    assert normalized[..|normalized|] == normalized;
    AllDecoded(d, bits, value, output);
  }

  lemma AllDecoded(d: seq<int>, bits: int, value: int, output: seq<Byte>)
    requires forall i :: 0 <= i < |d| ==> 0 <= d[i] < 32
    requires Registers(d, bits, value, output) && bits < 8
    ensures output == Decoded(d)
  {
  }

  lemma NoDigits()
    ensures Registers([], 0, 0, [])
  {
  }

  // --- the encoder -----------------------------------------------------------------------------

  /** The bytes read as one number. */
  function FromBytes(b: seq<Byte>): (v: nat) {
    if b == [] then 0 else 256 * FromBytes(b[..|b| - 1]) + b[|b| - 1]
  }

  function Letter(d: int): (ch: char)
    requires 0 <= d < 32
    ensures IndexOf(ch) == d && Upper(ch) == ch && ch != '='
  {
    if d < 26 then 'A' + d as char else '2' + (d - 26) as char
  }

  /** The number as `n` characters of the alphabet, the most significant first. */
  function ToLetters(v: nat, n: nat): (s: string)
    ensures |s| == n
    ensures forall i :: 0 <= i < n ==> Upper(s[i]) == s[i] && s[i] != '='
  {
    if n == 0 then "" else ToLetters(v / 32, n - 1) + [Letter(v % 32)]
  }

  /** How many characters carry `n` bytes. */
  function LettersFor(n: nat): nat {
    (8 * n + 4) / 5
  }

  /** The encoder of section 6 of RFC 4648: the bits of the bytes with zeros added to a multiple of
      five, then `=` to a multiple of eight characters. */
  function Encoded(b: seq<Byte>): string {
    var n := LettersFor(|b|);
    ToLetters(Shl(FromBytes(b), 5 * n - 8 * |b|), n) + seq((8 - n % 8) % 8, _ => '=')
  }

  lemma {:induction false} BytesRoundTrip(b: seq<Byte>)
    ensures ToBytes(FromBytes(b), |b|) == b
  {
    if b != [] {
      BytesRoundTrip(b[..|b| - 1]);
      assert b == b[..|b| - 1] + [b[|b| - 1]];
    }
  }

  function Pow32(n: nat): nat {
    if n == 0 then 1 else 32 * Pow32(n - 1)
  }

  lemma {:induction false} LettersAreDigits(v: nat, n: nat)
    requires v < Pow32(n)
    ensures |Digits(ToLetters(v, n))| == n && Number(Digits(ToLetters(v, n))) == v
  {
    if n > 0 {
      LettersAreDigits(v / 32, n - 1);
      var s := ToLetters(v, n);
      assert s[..n - 1] == ToLetters(v / 32, n - 1);
      var d := Digits(s);
      assert d == Digits(s[..n - 1]) + [v % 32];
      assert d[..n - 1] == Digits(s[..n - 1]);
    }
  }

  lemma {:induction false} BytesFit(b: seq<Byte>, k: nat)
    ensures Shl(FromBytes(b), k) < Pow2(8 * |b| + k)
  {
    if k > 0 {
      BytesFit(b, k - 1);
    } else if b != [] {
      var t := b[..|b| - 1];
      BytesFit(t, 0);
      ShlSum(1, 8 * |t|, 8);
      ShlEight(Pow2(8 * |t|));
    }
  }

  lemma ShlEight(x: nat)
    ensures Shl(x, 8) == 256 * x
  {
    ShlFive(x);
    assert Shl(x, 6) == 64 * x && Shl(x, 7) == 128 * x;
  }

  lemma {:induction false} Pow32IsPow2(n: nat)
    ensures Pow32(n) == Pow2(5 * n)
  {
    if n > 0 {
      Pow32IsPow2(n - 1);
      ShlSum(1, 5 * (n - 1), 5);
      ShlFive(Pow2(5 * (n - 1)));
    }
  }

  /** Padding characters are no digits, so stripping them changes nothing. */
  lemma {:induction false} PaddingIsIgnored(s: string)
    ensures Digits(UpperCase(StripPadding(s))) == Digits(UpperCase(s))
  {
    if s != [] && s[|s| - 1] == '=' {
      var t := s[..|s| - 1];
      PaddingIsIgnored(t);
      assert UpperCase(s)[..|s| - 1] == UpperCase(t);
    }
  }

  /** The value of a character as a digit, in either case of a letter. */
  function DigitValue(ch: char): int {
    var n := ch as int;
    if 65 <= n <= 90 then n - 65 else if 97 <= n <= 122 then n - 97 else if 50 <= n <= 55 then n - 24 else -1
  }

  /** The places before `n` of the digits, in order. */
  function DigitPlaces(s: string, n: nat): (places: seq<nat>) {
    Where(n, (i: nat) => i < |s| && DigitValue(s[i]) >= 0)
  }

  lemma {:induction false} DigitsBefore(s: string, n: nat)
    requires n <= |s|
    ensures var d, places := Digits(UpperCase(s[..n])), DigitPlaces(s, n);
      |d| == |places| && forall k | 0 <= k < |d| :: d[k] == DigitValue(s[places[k]])
  {
    if n > 0 {
      DigitsBefore(s, n - 1);
      assert UpperCase(s[..n])[..n - 1] == UpperCase(s[..n - 1]);
    }
  }

  /** The digits decoded are those of the text in their order, letters in either case; what is no digit is
      passed over, padding or not. */
  lemma DigitsOfText(s: string)
    ensures var d, places := Digits(UpperCase(StripPadding(s))), DigitPlaces(s, |s|);
      |d| == |places| && forall k | 0 <= k < |d| :: d[k] == DigitValue(s[places[k]])
  {
    hide *;
    PaddingIsIgnored(s);
    DigitsBefore(s, |s|);
    assert s[..|s|] == s;
  }

  /** Decoding inverts encoding, for every byte string. */
  lemma DecodeInvertsEncode(b: seq<Byte>)
    ensures Decoded(Digits(UpperCase(StripPadding(Encoded(b))))) == b
  {
    var n := LettersFor(|b|);
    var pad := 5 * n - 8 * |b|;
    assert 0 <= pad < 5;
    var v := Shl(FromBytes(b), pad);
    EncodedDigits(b, (8 - n % 8) % 8, ToLetters(v, n));
    BytesFit(b, pad);
    Pow32IsPow2(n);
    LettersAreDigits(v, n);
    assert 5 * n / 8 == |b| && 5 * n % 8 == pad;
    ShrOfShl(FromBytes(b), pad);
    BytesRoundTrip(b);
  }

  lemma EncodedDigits(b: seq<Byte>, k: nat, letters: string)
    requires Encoded(b) == letters + seq(k, _ => '=')
    requires forall i :: 0 <= i < |letters| ==> Upper(letters[i]) == letters[i]
    ensures Digits(UpperCase(StripPadding(Encoded(b)))) == Digits(letters)
  {
    PaddingIsIgnored(Encoded(b));
    assert UpperCase(letters) == letters;
    PaddingAtEnd(letters, k);
  }

  lemma {:induction false} PaddingAtEnd(letters: string, k: nat)
    ensures Digits(UpperCase(letters + seq(k, _ => '='))) == Digits(UpperCase(letters))
  {
    var s := letters + seq(k, _ => '=');
    if k == 0 {
      assert s == letters;
    } else {
      PaddingAtEnd(letters, k - 1);
      assert UpperCase(s)[..|s| - 1] == UpperCase(letters + seq(k - 1, _ => '='));
    }
  }
}
