module Text {

  /** ASCII upper case. */
  function Upper(ch: char): char {
    if 'a' <= ch <= 'z' then ch - 'a' + 'A' else ch
  }

  /** The numbers below `n` with the property, in order. */
  function Where(n: nat, p: nat -> bool): (places: seq<nat>)
    ensures forall k | 0 <= k < |places| :: places[k] < n && p(places[k])
    ensures forall i: nat | i < n && p(i) :: i in places
    ensures forall j, k | 0 <= j < k < |places| :: places[j] < places[k]
  {
    if n == 0 then []
    else
      var before := Where(n - 1, p);
      if p(n - 1) then before + [n - 1] else before
  }
}
