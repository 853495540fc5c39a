/** Go's 64-bit `int`: its range, the wrap-around of its arithmetic, and its `/`, which
    truncates toward zero where Dafny's rounds toward negative infinity. */
module GoInt {

  const MaxInt: int := 0x7FFF_FFFF_FFFF_FFFF
  const MinInt: int := -0x8000_0000_0000_0000
  const Modulus: int := 0x1_0000_0000_0000_0000

  /** The `int` that an exact result wraps to: the one value in range congruent to it. */
  function Wrap64(x: int): (w: int)
    ensures MinInt <= w <= MaxInt
    ensures (x - w) % Modulus == 0
  {
    var m := x % Modulus;
    if m <= MaxInt then m else m - Modulus
  }

  /** A sum of two non-negative `int`s wraps exactly when it passes `MaxInt`, and then to a
      negative number. */
  lemma WrapOfSum(x: int)
    requires 0 <= x <= MaxInt + MaxInt
    ensures x <= MaxInt ==> Wrap64(x) == x
    ensures x > MaxInt ==> Wrap64(x) == x - Modulus && Wrap64(x) < 0
  {
    assert x % Modulus == x;
  }

  /** Go's `a + b` for two non-negative `int`s: the exact sum, or that sum less `2^64` once it
      passes `MaxInt`. */
  function AddNonNeg(a: int, b: int): (r: int)
    requires 0 <= a <= MaxInt && 0 <= b <= MaxInt
    ensures r == Wrap64(a + b)
    ensures a + b <= MaxInt <==> r >= 0
  {
    WrapOfSum(a + b);
    if a + b <= MaxInt then a + b else a + b - Modulus
  }

  /** Go's `x - 1` on an `int`: one less, except that `MinInt - 1` wraps to `MaxInt`. */
  function Dec(x: int): (r: int)
    requires MinInt <= x <= MaxInt
    ensures MinInt <= r <= MaxInt
    ensures x > MinInt ==> r == x - 1
    ensures x == MinInt ==> r == MaxInt
  {
    if x > MinInt then x - 1 else MaxInt
  }

  /** `Dec` is the wrapped difference. */
  lemma DecIsWrap(x: int)
    requires MinInt <= x <= MaxInt
    ensures Dec(x) == Wrap64(x - 1)
  {
    assert (x - 1) % Modulus == (if x > MinInt then x - 1 + Modulus * (if x - 1 < 0 then 1 else 0) else MaxInt);
  }

  /** Go's `/` on `int`: the quotient truncated toward zero. */
  function GoDiv(a: int, b: int): (q: int)
    requires b > 0
    ensures a >= 0 ==> 0 <= a - q * b < b
    ensures a < 0 ==> -b < a - q * b <= 0
  {
    if a >= 0 then
      var q := a / b;
      assert a == q * b + a % b;
      q
    else
      var m := (-a) / b;
      assert -a == m * b + (-a) % b;
      assert (-m) * b == -(m * b);
      -m
  }

  /** A negative dividend never gives a positive quotient. */
  lemma GoDivOfNegative(a: int, b: int)
    requires a < 0 && b > 0
    ensures GoDiv(a, b) <= 0
  {
  }
}
