/** One-time codes of src/auth/security.utils.ts: the counter of a time, dynamic truncation of the HMAC
    (section 5.3 of RFC 4226), the printed code, and the window of accepted counters (sections 4.2
    and 5.2 of RFC 6238). HMAC-SHA-1 is a parameter that yields twenty bytes; times are whole
    milliseconds and the quotients are exact. */
module Totp {
  import opened BitOps
  import opened Base32
  import SqlScanner

  type Hmac = (seq<Byte>, seq<Byte>) -> seq<Byte>

  ghost predicate TwentyBytes(hmac: Hmac) {
    forall key, message :: |hmac(key, message)| == 20
  }

  datatype Result<T> = Ok(value: T) | RangeError

  // --- counters --------------------------------------------------------------------------------

  /** `Math.floor(timestamp / 1000 / period)`. */
  function Counter(timestamp: int, period: nat): int
    requires period > 0
  {
    (timestamp as real / 1000.0 / period as real).Floor
  }

  lemma QuotientShift(b: real, k: real, p: real)
    requires p > 0.0
    ensures (b + k * p) / p == b / p + k
  {
    var y := b / p;
    assert b == y * p;
    assert b + k * p == (y + k) * p;
    assert (y + k) * p / p == y + k;
  }

  lemma PeriodsAsReal(k: int, period: nat)
    ensures (k * period * 1000) as real == k as real * period as real * 1000.0
  {
    assert (k * period) as real == k as real * period as real;
  }

  /** A timestamp k periods later has the counter k steps on. */
  lemma CounterShift(timestamp: int, k: int, period: nat)
    requires period > 0
    ensures Counter(timestamp + k * period * 1000, period) == Counter(timestamp, period) + k
  {
    var t, kr, p := timestamp as real, k as real, period as real;
    PeriodsAsReal(k, period);
    assert (timestamp + k * period * 1000) as real == t + kr * p * 1000.0;
    assert (t + kr * p * 1000.0) / 1000.0 == t / 1000.0 + kr * p;
    QuotientShift(t / 1000.0, kr, p);
  }

  lemma NonNegativeCounter(t: int, period: nat)
    requires period > 0
    ensures Counter(t, period) >= 0 <==> t >= 0
  {
    var x, p := t as real / 1000.0, period as real;
    var y := x / p;
    assert x == y * p;
    SignOfProduct(y, p);
  }

  lemma SignOfProduct(y: real, p: real)
    requires p > 0.0
    ensures y * p >= 0.0 <==> y >= 0.0
  {
    if y < 0.0 { assert (-y) * p > 0.0; } else { assert y * p >= 0.0; }
  }

  // --- truncation ------------------------------------------------------------------------------

  /** Four bytes as a number without its top bit, as the source builds it. */
  function Truncated(b0: Byte, b1: Byte, b2: Byte, b3: Byte): int {
    Or32(Or32(Or32(
      Shl32(And32(b0, 0x7f), 24), Shl32(And32(b1, 0xff), 16)), Shl32(And32(b2, 0xff), 8)),
      And32(b3, 0xff))
  }

  /** The number at the offset that the last byte names. */
  function BinaryCode(h: seq<Byte>): int
    requires |h| == 20
  {
    And32Masks(h[19]);
    var offset := And32(h[19], 0x0f);
    Truncated(h[offset], h[offset + 1], h[offset + 2], h[offset + 3])
  }

  lemma ShiftConstants(x: nat)
    ensures Shl(x, 8) == 0x100 * x && Shl(x, 16) == 0x1_0000 * x && Shl(x, 24) == 0x100_0000 * x
  {
    ShlEight(x);
    ShlSum(x, 8, 8);
    ShlEight(Shl(x, 8));
    ShlSum(x, 16, 8);
    ShlEight(Shl(x, 16));
  }

  /** Or with a number below 2^k of a multiple of 2^k, with no wrap-around, is the sum. */
  lemma OrAdds(a: nat, k: nat, b: nat)
    requires b < Pow2(k) && Shl(a, k) + b < TWO_31
    ensures Or32(Shl(a, k), b) == Shl(a, k) + b
  {
    hide Shl, BitOr;
    OrIsSum(a, k, b);
  }

  lemma Shl32Small(x: nat, k: nat)
    requires Shl(x, k) < TWO_31 && x < TWO_31
    ensures Shl32(x, k) == Shl(x, k)
  {
    hide Shl;
  }

  /** Dynamic truncation: the indices are in bounds, and the shifted bytes or-ed together are their
      weighted sum, below 2^31. */
  lemma BinaryCodeIsSum(h: seq<Byte>)
    requires |h| == 20
    ensures h[19] % 16 + 3 < 20
    ensures BinaryCode(h) == WeightedSum(h, h[19] % 16)
    ensures 0 <= BinaryCode(h) < TWO_31
  {
    hide And32, Truncated;
    And32Masks(h[19]);
    var o := h[19] % 16;
    assert o + 3 < 20;
    TruncatedIsSum(h[o], h[o + 1], h[o + 2], h[o + 3]);
  }

  function WeightedSum(h: seq<Byte>, o: nat): int
    requires o + 3 < |h|
  {
    var b0: int, b1: int, b2: int, b3: int := h[o], h[o + 1], h[o + 2], h[o + 3];
    0x100_0000 * (b0 % 128) + 0x1_0000 * b1 + 0x100 * b2 + b3
  }

  lemma TruncatedIsSum(b0: Byte, b1: Byte, b2: Byte, b3: Byte)
    ensures Truncated(b0, b1, b2, b3) == 0x100_0000 * (b0 % 128) + 0x1_0000 * b1 + 0x100 * b2 + b3
    ensures 0 <= Truncated(b0, b1, b2, b3) < TWO_31
  {
    hide Or32, Shl32, And32;
    And32Masks(b0);
    And32Masks(b1);
    And32Masks(b2);
    And32Masks(b3);
    OrFour(b0 % 128, b1, b2, b3);
  }

  lemma OrFour(t: nat, b1: Byte, b2: Byte, b3: Byte)
    requires t < 128
    ensures Or32(Or32(Or32(Shl32(t, 24), Shl32(b1, 16)), Shl32(b2, 8)), b3) ==
      0x100_0000 * t + 0x1_0000 * b1 + 0x100 * b2 + b3
  {
    hide Or32, Shl32, Shl;
    OrTwo(t, 24, b1, 16);
    ShiftConstants(b2);
    Shl32Small(b2, 8);
    OrByte(0x100 * t + b1, 16, 0x100 * b2);
    OrByte(0x1_0000 * t + 0x100 * b1 + b2, 8, b3);
  }

  lemma OrTwo(t: nat, i: nat, b: Byte, j: nat)
    requires t < 128 && i == 24 && j == 16
    ensures Or32(Shl32(t, i), Shl32(b, j)) == 0x1_0000 * (0x100 * t + b)
  {
    hide Or32, Shl32;
    ShiftConstants(t);
    ShiftConstants(b);
    Shl32Small(t, 24);
    Shl32Small(b, 16);
    ShiftConstants(1);
    OrAdds(t, 24, 0x1_0000 * b);
  }

  lemma OrByte(x: nat, k: nat, b: nat)
    requires (k == 16 && x < 0x8000 && b < 0x1_0000) || (k == 8 && x < 0x80_0000 && b < 0x100)
    ensures k == 16 ==> Or32(0x1_0000 * x, b) == 0x1_0000 * x + b
    ensures k == 8 ==> Or32(0x100 * x, b) == 0x100 * x + b
  {
    hide Or32;
    ShiftConstants(x);
    ShiftConstants(1);
    OrAdds(x, k, b);
  }

  // --- printing --------------------------------------------------------------------------------

  function Pow10(n: nat): (p: nat)
    ensures p > 0
  {
    if n == 0 then 1 else 10 * Pow10(n - 1)
  }

  function DigitChar(d: int): char
    requires 0 <= d < 10
  {
    '0' + d as char
  }

  /** `toString()` of a number that is not negative. */
  function Decimal(n: nat): (s: string)
    ensures |s| > 0
  {
    if n < 10 then [DigitChar(n)] else Decimal(n / 10) + [DigitChar(n % 10)]
  }

  /** `padStart(width, '0')`. */
  function PadStart(s: string, width: nat): string {
    if |s| >= width then s else seq(width - |s|, _ => '0') + s
  }

  predicate AllDigits(s: string) {
    forall i :: 0 <= i < |s| ==> '0' <= s[i] <= '9'
  }

  function Parse(s: string): int
    requires AllDigits(s)
  {
    if s == [] then 0 else 10 * Parse(s[..|s| - 1]) + (s[|s| - 1] - '0') as int
  }

  lemma {:induction false} DecimalParses(n: nat)
    ensures AllDigits(Decimal(n)) && Parse(Decimal(n)) == n
  {
    if n >= 10 {
      DecimalParses(n / 10);
      assert Decimal(n)[..|Decimal(n)| - 1] == Decimal(n / 10);
    } else {
      assert Decimal(n)[..0] == "";
    }
  }

  lemma {:induction false} DecimalWidth(n: nat, width: nat)
    requires n < Pow10(width) && width > 0
    ensures |Decimal(n)| <= width
  {
    if n >= 10 { DecimalWidth(n / 10, width - 1); }
  }

  lemma {:induction false} LeadingZeros(k: nat, s: string)
    requires AllDigits(s)
    ensures AllDigits(seq(k, _ => '0') + s) && Parse(seq(k, _ => '0') + s) == Parse(s)
  {
    var t := seq(k, _ => '0') + s;
    if s != [] {
      LeadingZeros(k, s[..|s| - 1]);
      assert t[..|t| - 1] == seq(k, _ => '0') + s[..|s| - 1];
    } else if k > 0 {
      LeadingZeros(k - 1, s);
      assert t[..|t| - 1] == seq(k - 1, _ => '0') + s;
    }
  }

  /** The powers of ten, as printed. */
  lemma {:induction false} TenPower(n: nat)
    ensures AllDigits("1" + seq(n, _ => '0')) && Parse("1" + seq(n, _ => '0')) == Pow10(n)
  {
    var s := "1" + seq(n, _ => '0');
    if n == 0 {
      assert s[..0] == [];
    } else {
      TenPower(n - 1);
      assert s[..n] == "1" + seq(n - 1, _ => '0');
    }
  }

  // --- codes -----------------------------------------------------------------------------------

  /** The code of a counter. */
  function CodeOf(hmac: Hmac, secret: string, digits: nat, counter: nat): string
    requires TwentyBytes(hmac)
  {
    var h := hmac(Decoded(Digits(UpperCase(StripPadding(secret)))), ToBytes(counter, 8));
    BinaryCodeIsSum(h);
    PadStart(Decimal(BinaryCode(h) % Pow10(digits)), digits)
  }

  /** The counter is written as an unsigned 64-bit number, and refused when it is none. */
  predicate InRange(counter: int) {
    0 <= counter < 0x1_0000_0000_0000_0000
  }

  method GenerateTotpCode(hmac: Hmac, secret: string, digits: nat, period: nat,
                          timestamp: int)
    returns (code: Result<string>)
    requires period > 0 && TwentyBytes(hmac)
    ensures code == if InRange(Counter(timestamp, period))
      then Ok(CodeOf(hmac, secret, digits, Counter(timestamp, period))) else RangeError
  {
    var counter := Counter(timestamp, period);
    if !InRange(counter) { return RangeError; }
    var key := DecodeBase32(secret);
    var h := hmac(key, ToBytes(counter, 8));
    BinaryCodeIsSum(h);
    code := Ok(PadStart(Decimal(BinaryCode(h) % Pow10(digits)), digits));
  }

  /** A printed code has exactly `digits` digits, unless none are asked for, and reads back as the
      truncated value modulo the power of ten. */
  lemma CodeReadsBack(hmac: Hmac, secret: string, digits: nat, counter: nat)
    requires TwentyBytes(hmac)
    ensures var code := CodeOf(hmac, secret, digits, counter);
      var h := hmac(Decoded(Digits(UpperCase(StripPadding(secret)))), ToBytes(counter, 8));
      && (|code| == digits <==> digits > 0)
      && AllDigits(code) && Parse(code) == BinaryCode(h) % Pow10(digits)
  {
    var h := hmac(Decoded(Digits(UpperCase(StripPadding(secret)))), ToBytes(counter, 8));
    BinaryCodeIsSum(h);
    var n := BinaryCode(h) % Pow10(digits);
    DecimalParses(n);
    if digits > 0 {
      DecimalWidth(n, digits);
      LeadingZeros(digits - |Decimal(n)|, Decimal(n));
    }
  }

  /** The eight bytes hashed determine the counter. */
  lemma CounterBytesInjective(a: nat, b: nat)
    requires InRange(a) && InRange(b) && ToBytes(a, 8) == ToBytes(b, 8)
    ensures a == b
  {
    ShlEight(1);
    ShlSum(1, 8, 8);
    ShlEight(Pow2(8));
    ShlSum(1, 16, 16);
    ShlSixteen(Pow2(16));
    ShlSum(1, 32, 16);
    ShlSixteen(Pow2(32));
    ShlSum(1, 48, 16);
    ShlSixteen(Pow2(48));
    SameBytes(a, b, 8);
  }

  lemma ShlSixteen(x: nat)
    ensures Shl(x, 16) == 0x1_0000 * x
  {
    ShiftConstants(x);
  }

  lemma {:induction false} SameBytes(a: nat, b: nat, n: nat)
    requires ToBytes(a, n) == ToBytes(b, n)
    requires a < Pow2(8 * n) && b < Pow2(8 * n)
    ensures a == b
  {
    if n > 0 {
      var x, y := ToBytes(a, n), ToBytes(b, n);
      assert x[..n - 1] == ToBytes(a / 256, n - 1) && y[..n - 1] == ToBytes(b / 256, n - 1);
      assert x[n - 1] == a % 256 && y[n - 1] == b % 256;
      ShlSum(1, 8 * (n - 1), 8);
      ShlEight(Pow2(8 * (n - 1)));
      SameBytes(a / 256, b / 256, n - 1);
    }
  }

  // --- verification ----------------------------------------------------------------------------

  /** Some counter from `lo` to `hi` has this code. */
  ghost predicate Matches(hmac: Hmac, secret: string, digits: nat, lo: int, hi: int, code: string)
    requires TwentyBytes(hmac)
  {
    exists k: int | lo <= k <= hi && InRange(k) :: CodeOf(hmac, secret, digits, k) == code
  }

  /** The loop over the window. It stops at the first match, and fails at the first counter that is not
      an unsigned 64-bit number, below or above. */
  method VerifyTotpCode(hmac: Hmac, secret: string, code: string, digits: nat, period: nat,
                        window: int, timestamp: int)
    returns (valid: Result<bool>)
    requires period > 0 && TwentyBytes(hmac)
    ensures var c, trimmed := Counter(timestamp, period), SqlScanner.Trim(code);
      && (window >= 0 && !InRange(c - window) ==> valid == RangeError)
      && ((window < 0 || InRange(c - window)) && InRange(c + window) ==>
           valid == Ok(Matches(hmac, secret, digits, c - window, c + window, trimmed)))
      && (window >= 0 && InRange(c - window) && !InRange(c + window) ==>
           valid == if Matches(hmac, secret, digits, c - window, c + window, trimmed) then Ok(true) else RangeError)
  {
    hide CodeOf, Counter, SqlScanner.Trim;
    var normalized := SqlScanner.Trim(code);
    ghost var c := Counter(timestamp, period);
    var offset := -window;
    while offset <= window
      invariant -window <= offset && (window >= 0 ==> offset <= window + 1)
      invariant !Matches(hmac, secret, digits, c - window, c + offset - 1, normalized)
      invariant offset > -window ==> InRange(c - window) && InRange(c + offset - 1)
      decreases window + 1 - offset
    {
      CounterShift(timestamp, offset, period);
      var expected := GenerateTotpCode(hmac, secret, digits, period,
                                       timestamp + offset * period * 1000);
      if expected.RangeError? { return RangeError; }
      if expected.value == normalized {
        assert CodeOf(hmac, secret, digits, c + offset) == normalized;
        return Ok(true);
      }
      offset := offset + 1;
    }
    return Ok(false);
  }

  /** From `window` periods after the epoch on, verification never fails on a range. */
  lemma WindowInRange(timestamp: int, period: nat, window: nat)
    requires period > 0
    ensures timestamp >= window * period * 1000 <==> Counter(timestamp, period) - window >= 0
  {
    var k: int := 0 - window;
    CounterShift(timestamp, k, period);
    assert timestamp + k * period * 1000 == timestamp - window * period * 1000;
    NonNegativeCounter(timestamp - window * period * 1000, period);
  }

  const CODES := 0x1_0000_0000_0000_0000

  /** The times that have a code: from the epoch on, for 2^64 periods. */
  predicate HasCode(timestamp: int, period: nat) { 0 <= timestamp < CODES * period * 1000 }

  lemma RangeInTime(timestamp: int, period: nat)
    requires period > 0
    ensures InRange(Counter(timestamp, period)) <==> HasCode(timestamp, period)
  {
    NonNegativeCounter(timestamp, period);
    CounterShift(timestamp, -CODES, period);
    assert timestamp + -CODES * period * 1000 == timestamp - CODES * period * 1000;
    NonNegativeCounter(timestamp - CODES * period * 1000, period);
  }

  function PeriodsLater(timestamp: int, j: int, period: nat): int { timestamp + j * period * 1000 }

  /** This is the code of a time a whole number of periods off, `window` of them at most on either side. */
  ghost predicate CodeNearby(hmac: Hmac, secret: string, digits: nat, period: nat, window: int, timestamp: int,
                             code: string)
    requires period > 0 && TwentyBytes(hmac)
  {
    exists j: int | -window <= j <= window && InRange(Counter(PeriodsLater(timestamp, j, period), period)) ::
      CodeOf(hmac, secret, digits, Counter(PeriodsLater(timestamp, j, period), period)) == code
  }

  lemma MatchesNearby(hmac: Hmac, secret: string, digits: nat, period: nat, window: int, timestamp: int, code: string)
    requires period > 0 && TwentyBytes(hmac)
    ensures var c := Counter(timestamp, period);
      Matches(hmac, secret, digits, c - window, c + window, code)
      <==> CodeNearby(hmac, secret, digits, period, window, timestamp, code)
  {
    hide CodeOf, Counter;
    var c := Counter(timestamp, period);
    forall j: int ensures Counter(PeriodsLater(timestamp, j, period), period) == c + j {
      CounterShift(timestamp, j, period);
    }
    if Matches(hmac, secret, digits, c - window, c + window, code) {
      var k: int :| c - window <= k <= c + window && InRange(k) && CodeOf(hmac, secret, digits, k) == code;
      assert Counter(PeriodsLater(timestamp, k - c, period), period) == k;
    }
  }
}
