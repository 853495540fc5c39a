/** `SplitMap` of package `map`: the values of a map cut into at most `n` chunks.
    Go's map iteration order is unspecified, so the values arrive as a sequence
    in whatever order the range loop produced them. */
module MapSplit {
  import opened Wrappers
  import opened Seqs
  import ListOps
  import opened GoInt

  const NonPositiveN := "n must be greater than 0"
  const EmptyMap := "map is empty"

  /** With chunks of `CeilDiv(total, n)` elements, at most `n` chunks are needed. */
  lemma {:induction false} AtMostNChunks(total: nat, n: nat)
    requires total > 0 && n > 0
    ensures CeilDiv(total, n) > 0
    ensures CeilDiv(total, CeilDiv(total, n)) <= n
  {
    var c := CeilDiv(total, n);
    var k := CeilDiv(total, c);
    assert c * n >= total;
    if k > n {
      MulMono(n, k - 1, c);
      assert false;
    }
  }

  /** `SplitMap`, with Go's 64-bit `int`: `n` is an `int` and a map has at most `MaxInt`
      values. `None` stands for a call that does not return: when `total + n - 1` passes
      `MaxInt` the sum wraps to a negative number, so `chunkSize` is at most 0, and the loop
      either slices `values[0:chunkSize]` with a negative bound (a panic) or, at 0, never
      advances. */
  function SplitMap<T>(values: seq<T>, n: int): (r: Option<Result<seq<seq<T>>>>)
    requires MinInt <= n <= MaxInt && |values| <= MaxInt
    ensures r.None? <==> n > 0 && values != [] && |values| + n - 1 > MaxInt
    ensures n <= 0 ==> r == Some(Err(NonPositiveN))
    ensures n > 0 && values == [] ==> r == Some(Err(EmptyMap))
    ensures r.Some? ==> (r.value.Ok? <==> n > 0 && values != [])
    ensures r.Some? && r.value.Ok? ==> Concat(r.value.value) == values
    ensures r.Some? && r.value.Ok? ==> 0 < |r.value.value| <= n
    ensures r.Some? && r.value.Ok? ==>
      forall i :: 0 <= i < |r.value.value| - 1 ==> |r.value.value[i]| == CeilDiv(|values|, n)
    ensures r.Some? && r.value.Ok? ==>
      1 <= |r.value.value[|r.value.value| - 1]| <= CeilDiv(|values|, n)
  {
    if n <= 0 then Some(Err(NonPositiveN))
    else if |values| == 0 then Some(Err(EmptyMap))
    else
      var sum := |values| + n - 1;
      WrapOfSum(sum);
      var chunkSize := GoDiv(Wrap64(sum), n);
      if sum > MaxInt then
        GoDivOfNegative(Wrap64(sum), n);
        assert chunkSize <= 0;
        None
      else
        assert chunkSize == CeilDiv(|values|, n);
        AtMostNChunks(|values|, n);
        Some(Ok(ListOps.Chunks(values, chunkSize)))
  }

  /** Two values in at most `MaxInt` chunks: `2 + MaxInt - 1` wraps to `MinInt`, so
      `chunkSize` is -1 and `values[0:-1]` panics. */
  lemma TwoValuesMaxIntChunks<T>(a: T, b: T)
    ensures GoDiv(Wrap64(2 + MaxInt - 1), MaxInt) == -1
    ensures SplitMap([a, b], MaxInt) == None
  {
    WrapOfSum(2 + MaxInt - 1);
  }

  /** The chunk size computed without the overflowing sum: `(total - 1) / n + 1` is the
      rounded-up quotient for every positive `total` and `n`. */
  lemma CorrectedChunkSize(total: nat, n: nat)
    requires total > 0 && n > 0
    ensures (total - 1) / n + 1 == CeilDiv(total, n)
  {
    var q := (total - 1) / n;
    assert total - 1 == q * n + (total - 1) % n;
    assert (q + 1) * n == q * n + n;
    CeilDivUnique(total, n, q + 1);
  }

  /** `SplitMap` with the chunk size computed as `(total - 1) / n + 1`, which never leaves the
      `int` range: it returns for every `n` and map. */
  function SplitMapCorrected<T>(values: seq<T>, n: int): (r: Result<seq<seq<T>>>)
    ensures n <= 0 ==> r == Err(NonPositiveN)
    ensures n > 0 && values == [] ==> r == Err(EmptyMap)
    ensures r.Ok? <==> n > 0 && values != []
    ensures r.Ok? ==> Concat(r.value) == values
    ensures r.Ok? ==> 0 < |r.value| <= n
    ensures r.Ok? ==> forall i :: 0 <= i < |r.value| - 1 ==> |r.value[i]| == CeilDiv(|values|, n)
    ensures r.Ok? ==> 1 <= |r.value[|r.value| - 1]| <= CeilDiv(|values|, n)
  {
    if n <= 0 then Err(NonPositiveN)
    else if |values| == 0 then Err(EmptyMap)
    else
      var chunkSize := (|values| - 1) / n + 1;
      CorrectedChunkSize(|values|, n);
      AtMostNChunks(|values|, n);
      Ok(ListOps.Chunks(values, chunkSize))
  }

  /** Where the code as written returns, the correction returns the same chunks; it also
      returns where the code as written does not. */
  lemma CorrectionAgrees<T>(values: seq<T>, n: int)
    requires MinInt <= n <= MaxInt && |values| <= MaxInt
    ensures SplitMap(values, n).Some? ==> SplitMap(values, n).value == SplitMapCorrected(values, n)
  {
    if n > 0 && values != [] {
      CorrectedChunkSize(|values|, n);
    }
  }
}
