/** Lists of event times, and how many of them a half-open interval can hold. */
module TimeWindows {

  predicate Ordered(f: seq<int>, now: int) {
    && (forall i, j | 0 <= i <= j < |f| :: f[i] <= f[j])
    && (forall i | 0 <= i < |f| :: f[i] <= now)
  }

  /** Any event is at least `length` after the one `most` before it. */
  predicate Spaced(f: seq<int>, most: nat, length: int) {
    forall i | 0 <= i < |f| - most :: f[i] + length <= f[i + most]
  }

  /** How many times lie in [a, b). */
  function CountIn(f: seq<int>, a: int, b: int): (n: nat)
    ensures n <= |f|
  {
    if f == [] then 0 else CountIn(f[..|f| - 1], a, b) + if a <= f[|f| - 1] < b then 1 else 0
  }

  lemma CountMore(f: seq<int>, t: int, a: int, b: int)
    ensures CountIn(f + [t], a, b) == CountIn(f, a, b) + if a <= t < b then 1 else 0
  {
    assert (f + [t])[..|f|] == f;
  }

  /** If the k-th time from the end is before the interval, fewer than k times are in it. */
  lemma {:induction false} CountBelow(f: seq<int>, a: int, b: int, now: int, k: nat)
    requires Ordered(f, now) && 0 < k <= |f| && f[|f| - k] < a && f[|f| - 1] < b
    ensures CountIn(f, a, b) < k
  {
    var rest := f[..|f| - 1];
    assert Ordered(rest, now);
    if a <= f[|f| - 1] {
      CountBelow(rest, a, b, now, k - 1);
    } else if rest != [] {
      CountBelow(rest, a, b, now, 1);
    }
  }

  /** Spaced events put at most `most` of them into any half-open interval of the length. */
  lemma {:induction false} SpacedBoundsWindow(f: seq<int>, most: nat, length: int, a: int, now: int)
    requires most > 0 && Ordered(f, now) && Spaced(f, most, length)
    ensures CountIn(f, a, a + length) <= most
  {
    if |f| > most {
      if f[|f| - 1] < a + length {
        assert f[|f| - 1 - most] + length <= f[|f| - 1 - most + most];
        CountBelow(f, a, a + length, now, most + 1);
      } else {
        SpacedBoundsWindow(f[..|f| - 1], most, length, a, now);
      }
    }
  }

  /** An event late enough after the one `most` before it keeps the spacing. */
  lemma PacedEvent(f: seq<int>, most: nat, length: int, now: int)
    requires most > 0 && Ordered(f, now) && Spaced(f, most, length)
    requires |f| >= most ==> f[|f| - most] + length <= now
    ensures Ordered(f + [now], now) && Spaced(f + [now], most, length)
  {
    var g := f + [now];
    forall i | 0 <= i < |g| - most ensures g[i] + length <= g[i + most] {
      if i + most < |f| { assert f[i] + length <= f[i + most]; }
    }
  }
}
