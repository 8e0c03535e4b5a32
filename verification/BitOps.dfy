/** The 32-bit integer operators of JavaScript on mathematical integers: operands are taken modulo
    2^32, and every result but that of `>>>` is read back as a signed number. */
module BitOps {

  const TWO_31: int := 0x8000_0000
  const TWO_32: int := 0x1_0000_0000

  /** x * 2^k and floor(x / 2^k). */
  function Shl(x: nat, k: nat): (r: nat) {
    if k == 0 then x else 2 * Shl(x, k - 1)
  }

  function Shr(x: nat, k: nat): (r: nat)
    ensures r <= x
  {
    if k == 0 then x else Shr(x, k - 1) / 2
  }

  function Pow2(k: nat): nat { Shl(1, k) }

  function ToInt32(x: int): (r: int)
    ensures -TWO_31 <= r < TWO_31
    ensures r % TWO_32 == x % TWO_32
  {
    (x + TWO_31) % TWO_32 - TWO_31
  }

  function ToUint32(x: int): (r: nat)
    ensures r < TWO_32
  {
    x % TWO_32
  }

  function BitOr(a: nat, b: nat): nat {
    if a == 0 && b == 0 then 0
    else 2 * BitOr(a / 2, b / 2) + if a % 2 == 1 || b % 2 == 1 then 1 else 0
  }

  function BitAnd(a: nat, b: nat): nat {
    if a == 0 || b == 0 then 0
    else 2 * BitAnd(a / 2, b / 2) + if a % 2 == 1 && b % 2 == 1 then 1 else 0
  }

  /** `x << k`, `x | y`, `x & y`, which are signed, and `x >>> k`. */
  function Shl32(x: int, k: nat): (r: int)
    ensures -TWO_31 <= r < TWO_31
  {
    ToInt32(Shl(ToUint32(x), k))
  }

  function Or32(x: int, y: int): (r: int)
    ensures -TWO_31 <= r < TWO_31
  {
    ToInt32(BitOr(ToUint32(x), ToUint32(y)))
  }

  function And32(x: int, y: int): (r: int)
    ensures -TWO_31 <= r < TWO_31
  {
    ToInt32(BitAnd(ToUint32(x), ToUint32(y)))
  }

  function Shr32(x: int, k: nat): nat { Shr(ToUint32(x), k) }

  /** Or of a number shifted left by k and a number of k bits is their sum. */
  lemma {:induction false} OrIsSum(a: nat, k: nat, b: nat)
    requires b < Pow2(k)
    ensures BitOr(Shl(a, k), b) == Shl(a, k) + b
  {
    if k == 0 { OrZero(a); } else { OrIsSum(a, k - 1, b / 2); }
  }

  lemma {:induction false} OrZero(a: nat)
    ensures BitOr(a, 0) == a
  {
    if a > 0 { OrZero(a / 2); }
  }

  /** The last k bits of x. */
  function LowBits(x: nat, k: nat): nat {
    if k == 0 then 0 else 2 * LowBits(x / 2, k - 1) + x % 2
  }

  lemma {:induction false} AndIsLowBits(x: nat, k: nat)
    ensures Pow2(k) > 0
    ensures BitAnd(x, Pow2(k) - 1) == LowBits(x, k)
  {
    ShlPositive(1, k);
    if k > 0 {
      AndIsLowBits(x / 2, k - 1);
      var p := Pow2(k - 1);
      assert Pow2(k) == 2 * p;
      ShlPositive(1, k - 1);
      assert (2 * p - 1) / 2 == p - 1 && (2 * p - 1) % 2 == 1;
      if x == 0 { LowBitsOfZero(k); }
    }
  }

  lemma {:induction false} LowBitsOfZero(k: nat)
    ensures LowBits(0, k) == 0
  {
    if k > 0 { LowBitsOfZero(k - 1); }
  }

  lemma {:induction false} ShlPositive(x: nat, k: nat)
    requires x > 0
    ensures Shl(x, k) > 0
  {
    if k > 0 { ShlPositive(x, k - 1); }
  }

  lemma ShlNext(x: nat, k: nat)
    ensures Shl(x, 0) == x && Shl(x, k + 1) == 2 * Shl(x, k)
  {
  }

  lemma {:induction false} LowBitsIsModulo(x: nat, k: nat)
    ensures Pow2(k) > 0 && LowBits(x, k) == x % Pow2(k)
  {
    ShlPositive(1, k);
    if k > 0 {
      ShlPositive(1, k - 1);
      LowBitsIsModulo(x / 2, k - 1);
      ShlNext(1, k - 1);
      DoubleModulo(x / 2, x % 2, Pow2(k - 1));
    }
  }

  lemma AtLeast(d: nat, n: int)
    requires n >= 1
    ensures d * n >= d
  {
  }

  lemma Split(d: int, p: int, q: int)
    ensures d * (p - q) == d * p - d * q
  {
  }

  /** The remainder of a division is unique. */
  lemma RemainderIs(d: nat, p: int, s: int, q: int, r: int)
    requires 0 <= r < d && 0 <= s < d && d * p + s == d * q + r
    ensures s == r
  {
    Split(d, p, q);
    Split(d, q, p);
    if p > q { AtLeast(d, p - q); } else if p < q { AtLeast(d, q - p); }
  }

  lemma DoubleModulo(h: nat, b: nat, m: nat)
    requires b < 2 && m > 0
    ensures (2 * h + b) % (2 * m) == 2 * (h % m) + b
  {
    var x, d := 2 * h + b, 2 * m;
    RemainderIs(d, x / d, x % d, h / m, 2 * (h % m) + b);
  }

  lemma MaskPowers()
    ensures Pow2(4) == 16 && Pow2(7) == 128 && Pow2(8) == 256
  {
    ShlNext(1, 0);
    ShlNext(1, 1);
    ShlNext(1, 2);
    ShlNext(1, 3);
    ShlNext(1, 4);
    ShlNext(1, 5);
    ShlNext(1, 6);
    ShlNext(1, 7);
  }

  /** And with 15, 127 and 255 is the remainder by 16, 128 and 256. */
  lemma AndMasks(x: nat)
    ensures BitAnd(x, 15) == x % 16 && BitAnd(x, 127) == x % 128 && BitAnd(x, 255) == x % 256
  {
    hide BitAnd, LowBits, Pow2;
    MaskPowers();
    AndIsLowBits(x, 4);
    AndIsLowBits(x, 7);
    AndIsLowBits(x, 8);
    LowBitsIsModulo(x, 4);
    LowBitsIsModulo(x, 7);
    LowBitsIsModulo(x, 8);
  }

  lemma And32Masks(x: nat)
    requires x < TWO_32
    ensures And32(x, 15) == x % 16 && And32(x, 127) == x % 128 && And32(x, 255) == x % 256
  {
    hide BitAnd;
    assert ToUint32(x) == x && ToUint32(15) == 15 && ToUint32(127) == 127 && ToUint32(255) == 255;
    AndMasks(x);
    hide ToUint32;
    SmallInt32(x % 16);
    SmallInt32(x % 128);
    SmallInt32(x % 256);
  }

  lemma SmallInt32(y: nat)
    requires y < TWO_31
    ensures ToInt32(y) == y
  {
  }

  /** The shift amounts used, as divisions and multiplications. */
  lemma ShrSmall(x: nat)
    ensures Shr(x, 0) == x && Shr(x, 1) == x / 2 && Shr(x, 2) == x / 4 && Shr(x, 3) == x / 8
    ensures Shr(x, 4) == x / 16 && Shr(x, 5) == x / 32
  {
    assert Shr(x, 5) == Shr(x, 4) / 2;
    assert Shr(x, 1) == Shr(x, 0) / 2 && Shr(x, 2) == Shr(x, 1) / 2;
    assert Shr(x, 3) == Shr(x, 2) / 2 && Shr(x, 4) == Shr(x, 3) / 2;
  }

  lemma ShlFive(x: nat)
    ensures Shl(x, 5) == 32 * x
  {
    ShlNext(x, 0);
    ShlNext(x, 1);
    ShlNext(x, 2);
    ShlNext(x, 3);
    ShlNext(x, 4);
  }

  lemma {:induction false} ShlSum(x: nat, a: nat, b: nat)
    ensures Shl(x, a + b) == Shl(Shl(x, a), b)
  {
    if b > 0 { ShlSum(x, a, b - 1); }
  }

  lemma {:induction false} ShrOfShl(x: nat, k: nat)
    ensures Shr(Shl(x, k), k) == x
  {
    if k > 0 {
      ShrInner(Shl(x, k), k);
      ShrOfShl(x, k - 1);
    }
  }

  /** Shifting right by one first or last is the same. */
  lemma {:induction false} ShrInner(x: nat, k: nat)
    requires k > 0
    ensures Shr(x, k) == Shr(x / 2, k - 1)
  {
    if k > 1 { ShrInner(x, k - 1); }
  }

  lemma {:induction false} ShrSum(x: nat, a: nat, b: nat)
    ensures Shr(x, a + b) == Shr(Shr(x, a), b)
  {
    if b > 0 { ShrSum(x, a, b - 1); }
  }

  lemma AddModulo(x: int, d: int)
    ensures (x % TWO_32 + d) % TWO_32 == (x + d) % TWO_32
  {
    var q := x / TWO_32;
    assert x == TWO_32 * q + x % TWO_32;
  }
}
