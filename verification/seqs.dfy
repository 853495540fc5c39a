/** Sequence helpers used by several modules: flattening, subsequence order,
    and the ceiling-division arithmetic of the chunking helpers. */
module Seqs {

  /** All chunks joined back together, in order. */
  function Concat<T>(chunks: seq<seq<T>>): seq<T>
  {
    if chunks == [] then [] else chunks[0] + Concat(chunks[1..])
  }

  /** Length of a concatenation whose chunks, but the last, all have length `n`. */
  lemma {:induction false} ConcatUniformLength<T>(chunks: seq<seq<T>>, n: nat)
    requires |chunks| > 0
    requires forall i :: 0 <= i < |chunks| - 1 ==> |chunks[i]| == n
    ensures |Concat(chunks)| == (|chunks| - 1) * n + |chunks[|chunks| - 1]|
  {
    if |chunks| > 1 {
      ConcatUniformLength(chunks[1..], n);
    }
  }

  /** `a` is obtained from `b` by deleting elements, keeping the order. */
  predicate Subseq<T(==)>(a: seq<T>, b: seq<T>)
    decreases |b|
  {
    if a == [] then true
    else if b == [] then false
    else if a[0] == b[0] then Subseq(a[1..], b[1..])
    else Subseq(a, b[1..])
  }

  /** The number of elements of `s` equal to `x`. */
  function Count<T(==)>(s: seq<T>, x: T): nat
  {
    if s == [] then 0 else (if s[0] == x then 1 else 0) + Count(s[1..], x)
  }

  lemma MulMono(x: int, y: int, n: int)
    requires x <= y && n >= 0
    ensures x * n <= y * n
  {
    assert y * n - x * n == (y - x) * n;
  }

  /** Multiplying by a non-positive factor reverses the order. */
  lemma MulAnti(x: int, y: int, n: int)
    requires x <= y && n <= 0
    ensures y * n <= x * n
  {
    assert x * n - y * n == (y - x) * -n;
  }

  /** `q` is the quotient of `a` by `n` exactly when `q * n <= a < (q + 1) * n`. */
  lemma DivBetween(a: int, n: int, q: int)
    requires n > 0
    requires q * n <= a < q * n + n
    ensures a / n == q
  {
    var d, m := a / n, a % n;
    assert a == d * n + m && 0 <= m < n;
    if d < q {
      MulMono(d + 1, q, n);
      assert false;
    } else if q < d {
      MulMono(q + 1, d, n);
      assert false;
    }
  }

  /** Ceiling division: the least `k` with `k * n >= a`. */
  function CeilDiv(a: nat, n: nat): (k: nat)
    requires n > 0
    ensures k * n >= a
    ensures k == 0 || (k - 1) * n < a
  {
    var k := (a + n - 1) / n;
    assert k * n <= a + n - 1 < k * n + n;
    k
  }

  /** The characterisation of `CeilDiv` determines it. */
  lemma CeilDivUnique(a: nat, n: nat, k: nat)
    requires n > 0
    requires k * n >= a
    requires k == 0 || (k - 1) * n < a
    ensures k == CeilDiv(a, n)
  {
    if k == 0 {
      DivBetween(a + n - 1, n, 0);
    } else {
      assert (k - 1) * n == k * n - n;
      DivBetween(a + n - 1, n, k);
    }
  }

  /** Taking one full chunk of `n` off a longer input leaves one chunk fewer. */
  lemma CeilDivStep(a: nat, n: nat)
    requires 0 < n < a
    ensures CeilDiv(a, n) == CeilDiv(a - n, n) + 1
  {
    var k := CeilDiv(a - n, n);
    assert (k + 1) * n == k * n + n;
    assert k * n < a by {
      if k > 0 { assert (k - 1) * n == k * n - n; }
    }
    CeilDivUnique(a, n, k + 1);
  }
}
