/** Rounding of reals to integers, as the simulation's kernels use it.
    Python's built-in round() and numpy.around both round to the nearest
    integer and break ties towards the even neighbour; math.ceil rounds up.
    Also the view of one row of a two-dimensional array as a sequence. */
module Numerics {

  /** Row i of a two-dimensional array as a sequence. */
  function Row<T>(m: array2<T>, i: nat): (r: seq<T>)
    requires i < m.Length0
    reads m
    ensures |r| == m.Length1 && forall j :: 0 <= j < m.Length1 ==> r[j] == m[i, j]
  {
    seq(m.Length1, j requires 0 <= j < m.Length1 reads m => m[i, j])
  }

  /** Nearest integer, ties to even (Python round(), numpy.around). */
  function RoundHalfEven(x: real): (n: int)
    ensures n as real - 0.5 <= x <= n as real + 0.5
    ensures (x == n as real - 0.5 || x == n as real + 0.5) ==> n % 2 == 0
  {
    var f := x.Floor;
    var d := x - f as real;
    if d < 0.5 then f
    else if d > 0.5 then f + 1
    else if f % 2 == 0 then f
    else f + 1
  }

  /** The two properties in the contract of RoundHalfEven pin its result down. */
  lemma RoundHalfEvenUnique(x: real, m: int)
    requires m as real - 0.5 <= x <= m as real + 0.5
    requires (x == m as real - 0.5 || x == m as real + 0.5) ==> m % 2 == 0
    ensures RoundHalfEven(x) == m
  {
  }

  /** Rounding never reverses the order of its arguments. */
  lemma RoundHalfEvenMonotone(x: real, y: real)
    requires x <= y
    ensures RoundHalfEven(x) <= RoundHalfEven(y)
  {
    if x < y {
      var a, b := RoundHalfEven(x), RoundHalfEven(y);
      assert b as real > a as real - 1.0;
    }
  }

  /** Rounding a multiple of an integer step leaves it alone. */
  lemma RoundHalfEvenOfInt(k: int)
    ensures RoundHalfEven(k as real) == k
  {
    RoundHalfEvenUnique(k as real, k);
  }

  /** Smallest integer not below x (math.ceil). */
  function Ceil(x: real): (c: int)
    ensures c as real - 1.0 < x <= c as real
  {
    -((-x).Floor)
  }

  function Min(a: int, b: int): int { if a <= b then a else b }

  function Max(a: int, b: int): int { if a >= b then a else b }
}
