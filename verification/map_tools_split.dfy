/** `SplitMap` of package `map_tools`: the values of a map cut into chunks of `chunkSize`.
    The values arrive as a sequence in the (unspecified) order of Go's map range loop. */
module MapToolsSplit {
  import opened Wrappers
  import opened Seqs
  import ListOps

  const NonPositiveChunkSize := "chunkSize must be greater than 0"
  const EmptyMap := "map is empty"

  function SplitMap<T>(values: seq<T>, chunkSize: int): (r: Result<seq<seq<T>>>)
    ensures chunkSize <= 0 ==> r == Err(NonPositiveChunkSize)
    ensures chunkSize > 0 && values == [] ==> r == Err(EmptyMap)
    ensures r.Ok? <==> chunkSize > 0 && values != []
    ensures r.Ok? ==> Concat(r.value) == values
    ensures r.Ok? ==> |r.value| == CeilDiv(|values|, chunkSize)
    ensures r.Ok? ==> forall i :: 0 <= i < |r.value| - 1 ==> |r.value[i]| == chunkSize
    ensures r.Ok? ==> 1 <= |r.value[|r.value| - 1]| <= chunkSize
  {
    if chunkSize <= 0 then Err(NonPositiveChunkSize)
    else if |values| == 0 then Err(EmptyMap)
    else Ok(ListOps.Chunks(values, chunkSize))
  }

  /** Seven values in chunks of two make four chunks, the last holding one value. */
  lemma SevenByTwo(values: seq<string>)
    requires |values| == 7
    ensures SplitMap(values, 2).Ok?
    ensures |SplitMap(values, 2).value| == 4
    ensures |SplitMap(values, 2).value[3]| == 1
  {
    assert CeilDiv(7, 2) == 4 by { CeilDivUnique(7, 2, 4); }
    ConcatUniformLength(SplitMap(values, 2).value, 2);
  }
}
