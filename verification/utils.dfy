/** The numeric helpers of resources/js/lib/utils.ts. */
module Utils {

  function Min(a: int, b: int): int { if a <= b then a else b }

  function Max(a: int, b: int): int { if a >= b then a else b }

  /**
   * The index of the first entry of `s` equal to `x`, or -1 when there is
   * none: the search that `Array.prototype.find` and `findIndex` perform
   * when their callback compares one key.
   */
  function FirstIndex<T(==)>(s: seq<T>, x: T): (i: int)
    ensures -1 <= i < |s|
    ensures 0 <= i ==> s[i] == x && forall j :: 0 <= j < i ==> s[j] != x
    ensures i == -1 <==> x !in s
  {
    if |s| == 0 then -1
    else if s[0] == x then 0
    else
      var k := FirstIndex(s[1..], x);
      if k == -1 then -1 else k + 1
  }

  /** `clamp(value, min, max)`: `Math.max(min, Math.min(value, max))`. */
  function Clamp(v: int, lo: int, hi: int): (r: int)
    ensures lo <= hi ==> lo <= r <= hi
    ensures lo <= v <= hi ==> r == v
    ensures v < lo ==> r == lo
    ensures lo <= hi < v ==> r == hi
    ensures hi < lo ==> r == lo
  {
    Max(lo, Min(v, hi))
  }

  /** Clamping a clamped value changes nothing. */
  lemma ClampIdempotent(v: int, lo: int, hi: int)
    ensures Clamp(Clamp(v, lo, hi), lo, hi) == Clamp(v, lo, hi)
  {
  }

  /**
   * `getRandomNumber(min, max)`: a uniformly drawn integer of `[min, max]`.
   * `Math.random()` is replaced by an arbitrary integer `draw` supplied by the
   * caller, so the function describes every value the source can produce.
   */
  function GetRandomNumber(min: int, max: int, draw: int): (r: int)
    requires min <= max
    ensures min <= r <= max
  {
    min + draw % (max - min + 1)
  }

  /** Every integer of `[min, max]` is a possible outcome of `GetRandomNumber`. */
  lemma GetRandomNumberCovers(min: int, max: int, v: int)
    requires min <= v <= max
    ensures GetRandomNumber(min, max, v - min) == v
  {
  }
}
