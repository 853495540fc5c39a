/** The byte-range arithmetic of the chunked downloaders, apart from the network and the file.

    A chunk's byte range follows the byte-range-spec of section 2.1 of RFC 7233:
    `bytes=first-last` names the bytes `first..last`, both included. Package `downloader`
    computes such inclusive ranges directly; packages `http_tools` and `http` compute
    half-open ranges `[start, end)` and send `end - 1` as the last byte. */
module Downloads {
  import opened Wrappers
  import opened Decimal
  import opened Seqs
  import opened GoInt

  /** The bytes `first..last`, both included; empty when `last < first`. */
  datatype Inclusive = Inclusive(first: int, last: int)

  /** The bytes `start..end - 1`. */
  datatype HalfOpen = HalfOpen(start: int, end: int)

  /** Contiguous, non-empty half-open ranges that tile `[0, size)`. */
  predicate Tiles(rs: seq<HalfOpen>, size: int)
  {
    && |rs| > 0
    && rs[0].start == 0
    && rs[|rs| - 1].end == size
    && (forall i :: 0 <= i < |rs| ==> rs[i].start < rs[i].end)
    && (forall i :: 0 <= i < |rs| - 1 ==> rs[i].end == rs[i + 1].start)
  }

  /** Tiling ranges are ordered: an earlier range ends no later than a later one starts. */
  lemma {:induction false} TilesOrdered(rs: seq<HalfOpen>, size: int, i: nat, j: nat)
    requires Tiles(rs, size)
    requires i < j < |rs|
    ensures rs[i].end <= rs[j].start
    decreases j - i
  {
    if i + 1 < j {
      TilesOrdered(rs, size, i + 1, j);
    }
  }

  /** Tiling ranges cover every byte of `[0, size)` exactly once. */
  lemma {:induction false} TilesPartition(rs: seq<HalfOpen>, size: int, b: int)
    requires Tiles(rs, size)
    requires 0 <= b < size
    ensures exists i :: 0 <= i < |rs| && rs[i].start <= b < rs[i].end
    ensures forall i, j :: 0 <= i < |rs| && 0 <= j < |rs| && rs[i].start <= b < rs[i].end && rs[j].start <= b < rs[j].end ==> i == j
  {
    var k := FindRange(rs, size, b, 0);
    forall i, j | 0 <= i < |rs| && 0 <= j < |rs| && rs[i].start <= b < rs[i].end && rs[j].start <= b < rs[j].end
      ensures i == j
    {
      if i < j {
        TilesOrdered(rs, size, i, j);
      } else if j < i {
        TilesOrdered(rs, size, j, i);
      }
    }
  }

  /** The range holding byte `b`, searching from range `from` on. */
  lemma {:induction false} FindRange(rs: seq<HalfOpen>, size: int, b: int, from: nat) returns (k: nat)
    requires Tiles(rs, size)
    requires from < |rs| && rs[from].start <= b < size
    ensures k < |rs| && rs[k].start <= b < rs[k].end
    decreases |rs| - from
  {
    if b < rs[from].end {
      k := from;
    } else {
      k := FindRange(rs, size, b, from + 1);
    }
  }

  // ---------------------------------------------------------------------------------------
  // Package `downloader`: validated chunk count, inclusive ranges.

  datatype DownloaderPlan = SingleRequest | InclusiveChunks(ranges: seq<Inclusive>)

  /** The inclusive ranges: chunk `i` starts at `i * chunkSize` and is `chunkSize` long,
      except the last, which ends at `fileSize - 1` in Go's `int`: `MaxInt` for a size of
      `MinInt`. No other sum or product wraps (`InclusiveRangesInRange`). */
  function InclusiveRanges(fileSize: int, chunkCount: nat): (rs: seq<Inclusive>)
    requires MinInt <= fileSize <= MaxInt && chunkCount >= 1
    ensures |rs| == chunkCount
    ensures forall i :: 0 <= i < chunkCount ==> rs[i].first == i * GoDiv(fileSize, chunkCount)
    ensures forall i :: 0 <= i < chunkCount - 1 ==>
      rs[i].last == rs[i].first + GoDiv(fileSize, chunkCount) - 1
    ensures fileSize > MinInt ==> rs[chunkCount - 1].last == fileSize - 1
    ensures fileSize == MinInt ==> rs[chunkCount - 1].last == MaxInt
  {
    var size, last := GoDiv(fileSize, chunkCount), Dec(fileSize);
    seq(chunkCount, i requires 0 <= i < chunkCount =>
      if i == chunkCount - 1 then Inclusive(i * size, last) else Inclusive(i * size, i * size + size - 1))
  }

  /** The products and sums Go computes for the ranges stay within `int`: `i * chunkSize`
      for every chunk, and `start + chunkSize - 1` for every chunk but the last. */
  lemma InclusiveRangesInRange(fileSize: int, chunkCount: nat)
    requires MinInt <= fileSize <= MaxInt && chunkCount >= 1
    ensures forall i :: 0 <= i < chunkCount ==>
      MinInt <= i * GoDiv(fileSize, chunkCount) <= MaxInt
    ensures forall i :: 0 <= i < chunkCount - 1 ==>
      MinInt <= i * GoDiv(fileSize, chunkCount) + GoDiv(fileSize, chunkCount) - 1 <= MaxInt
  {
    var size := GoDiv(fileSize, chunkCount);
    if fileSize >= 0 {
      StepsBelow(fileSize, chunkCount, size);
    } else {
      GoDivOfNegative(fileSize, chunkCount);
      StepsAbove(fileSize, chunkCount, size);
    }
  }

  /** For a size of at least zero, every multiple of the quotient up to `c` lies in 0..size. */
  lemma StepsBelow(fileSize: int, c: nat, size: int)
    requires 0 <= fileSize <= MaxInt && c >= 1 && 0 <= fileSize - size * c < c
    ensures forall i :: 0 <= i < c ==> MinInt <= 0 <= i * size <= fileSize <= MaxInt
    ensures forall i :: 0 <= i < c - 1 ==> MinInt <= 0 <= i * size + size - 1 + 1 <= fileSize <= MaxInt
  {
    assert size >= 0 by {
      if size < 0 {
        MulMono(size, -1, c);
      }
    }
    forall i | 0 <= i < c
      ensures 0 <= i * size <= fileSize
    {
      MulMono(0, i, size);
      MulMono(i, c, size);
    }
    forall i | 0 <= i < c - 1
      ensures 0 <= i * size + size <= fileSize
    {
      MulStep(i, size);
      MulMono(0, i + 1, size);
      MulMono(i + 1, c, size);
    }
  }

  /** For a negative size, every multiple of the (non-positive) quotient up to `c` lies in
      size..0. */
  lemma StepsAbove(fileSize: int, c: nat, size: int)
    requires MinInt <= fileSize < 0 && c >= 1 && size <= 0 && fileSize - size * c <= 0
    ensures forall i :: 0 <= i < c ==> MinInt <= fileSize <= i * size <= 0 <= MaxInt
    ensures forall i :: 0 <= i < c - 1 ==> MinInt <= i * size + size - 1 <= 0 <= MaxInt
  {
    forall i | 0 <= i < c
      ensures fileSize <= i * size <= 0
    {
      MulAnti(i, c, size);
      MulAnti(0, i, size);
    }
    forall i | 0 <= i < c - 1
      ensures MinInt <= i * size + size - 1 <= 0
    {
      StepAbove(fileSize, c, size, i);
    }
  }

  /** One chunk but the last, for a negative size: its end `(i + 1) * size - 1` lies
      between the size and zero. */
  lemma StepAbove(fileSize: int, c: nat, size: int, i: nat)
    requires fileSize < 0 && size <= 0 && fileSize - size * c <= 0 && i < c - 1
    ensures fileSize <= i * size + size - 1 <= 0
  {
    MulStep(i, size);
    MulStep(c - 1, size);
    MulAnti(i + 1, c - 1, size);
    MulAnti(0, i, size);
  }

  /** `DownloadFile` in package `downloader`, from the chunk count and the announced size: a
      count outside 0..32 is rejected, 0 downloads in one request, anything else in that many
      ranged requests. */
  function PlanDownloader(fileSize: int, chunkCount: int): (r: Result<DownloaderPlan>)
    requires MinInt <= fileSize <= MaxInt
    ensures r.Err? <==> chunkCount < 0 || chunkCount > 32
    ensures r.Err? ==> r.error == "invalid chunkCount: " + FormatInt(chunkCount) + ", must be between 0 and 32"
    ensures r.Ok? ==> (r.value.SingleRequest? <==> chunkCount == 0)
    ensures r.Ok? && r.value.InclusiveChunks? ==>
      && |r.value.ranges| == chunkCount
      && r.value.ranges == InclusiveRanges(fileSize, chunkCount)
      && r.value.ranges[chunkCount - 1].last == Dec(fileSize)
  {
    if chunkCount < 0 || chunkCount > 32 then
      Err("invalid chunkCount: " + FormatInt(chunkCount) + ", must be between 0 and 32")
    else if chunkCount == 0 then Ok(SingleRequest)
    else Ok(InclusiveChunks(InclusiveRanges(fileSize, chunkCount)))
  }

  function AsHalfOpen(rs: seq<Inclusive>): (hs: seq<HalfOpen>)
    ensures |hs| == |rs|
    ensures forall i :: 0 <= i < |rs| ==> hs[i] == HalfOpen(rs[i].first, rs[i].last + 1)
  {
    seq(|rs|, i requires 0 <= i < |rs| => HalfOpen(rs[i].first, rs[i].last + 1))
  }

  lemma MulStep(i: int, c: int)
    ensures (i + 1) * c == i * c + c
  {
  }

  /** When the file has at least one byte per chunk, the inclusive ranges tile the file. */
  lemma InclusiveRangesTile(fileSize: int, chunkCount: nat)
    requires 1 <= chunkCount <= fileSize <= MaxInt
    ensures Tiles(AsHalfOpen(InclusiveRanges(fileSize, chunkCount)), fileSize)
  {
    var size := GoDiv(fileSize, chunkCount);
    var rs := InclusiveRanges(fileSize, chunkCount);
    var hs := AsHalfOpen(rs);
    assert size >= 1 by {
      if size <= 0 {
        MulMono(size, 0, chunkCount);
        assert false;
      }
    }
    forall i | 0 <= i < chunkCount - 1
      ensures hs[i].end == hs[i + 1].start
    {
      MulStep(i, size);
    }
    forall i | 0 <= i < chunkCount
      ensures hs[i].start < hs[i].end
    {
      if i == chunkCount - 1 {
        MulStep(i, size);
        assert (i + 1) * size == chunkCount * size;
      }
    }
    assert hs[0].start == 0;
  }

  /** With fewer bytes than chunks the chunk size is 0: every chunk but the last is the
      empty range `first..first - 1`, and the last one holds the whole file. */
  lemma SmallFileRanges(fileSize: int, chunkCount: nat)
    requires 0 <= fileSize < chunkCount && fileSize <= MaxInt
    ensures forall i :: 0 <= i < chunkCount - 1 ==>
      InclusiveRanges(fileSize, chunkCount)[i] == Inclusive(0, -1)
    ensures InclusiveRanges(fileSize, chunkCount)[chunkCount - 1] == Inclusive(0, fileSize - 1)
  {
    DivBetween(fileSize, chunkCount, 0);
    assert GoDiv(fileSize, chunkCount) == 0;
    var rs := InclusiveRanges(fileSize, chunkCount);
    forall i | 0 <= i < chunkCount - 1
      ensures rs[i] == Inclusive(0, -1)
    {
      assert i * 0 == 0;
    }
  }

  /** A negative size (a `Content-Length` such as "-5") divides toward zero, as Go does. */
  lemma NegativeSizeExample()
    ensures InclusiveRanges(-5, 2) == [Inclusive(0, -3), Inclusive(-2, -6)]
  {
    assert GoDiv(-5, 2) == -2;
  }

  /** The one size whose `fileSize - 1` wraps: a `Content-Length` of -9223372036854775808
      makes the last range end at `MaxInt`. */
  lemma MinSizeExample()
    ensures InclusiveRanges(MinInt, 2) == [Inclusive(0, MinInt / 2 - 1), Inclusive(MinInt / 2, MaxInt)]
  {
    assert GoDiv(MinInt, 2) == MinInt / 2;
  }

  // ---------------------------------------------------------------------------------------
  // Packages `http_tools` and `http`: clamped chunk count, half-open ranges.

  datatype RangedPlan = WholeBody | HalfOpenChunks(ranges: seq<HalfOpen>)

  /** More than 32 chunks are cut down to 32. */
  function ClampChunkCount(chunkCount: int): (c: int)
    ensures c <= 32
    ensures c == chunkCount || (chunkCount > 32 && c == 32)
  {
    if chunkCount > 32 then 32 else chunkCount
  }

  /** `downloadFileChunks`: chunk `i` is `[i * chunkSize, (i + 1) * chunkSize)`, except the
      last, which ends at `size`. */
  function HalfOpenRanges(size: int, chunkCount: nat): (rs: seq<HalfOpen>)
    requires chunkCount >= 1
    ensures |rs| == chunkCount
  {
    var chunkSize := GoDiv(size, chunkCount);
    seq(chunkCount, i requires 0 <= i < chunkCount =>
      HalfOpen(i * chunkSize, if i == chunkCount - 1 then size else i * chunkSize + chunkSize))
  }

  /** The guard `chunkCount > 1 && size > chunkCount`, after the clamp. */
  predicate ChunksDownload(size: int, chunkCount: int)
  {
    ClampChunkCount(chunkCount) > 1 && size > ClampChunkCount(chunkCount)
  }

  /** `DownloadFile` in packages `http_tools` and `http` once the size is known: ranged
      requests only when the guard holds, and then the ranges tile `[0, size)`. */
  function PlanRanged(size: int, chunkCount: int): (p: RangedPlan)
    ensures p.HalfOpenChunks? <==> ChunksDownload(size, chunkCount)
    ensures p.HalfOpenChunks? ==>
      && |p.ranges| == ClampChunkCount(chunkCount)
      && 2 <= |p.ranges| <= 32
      && Tiles(p.ranges, size)
  {
    var c := ClampChunkCount(chunkCount);
    if c > 1 && size > c then
      HalfOpenRangesTile(size, c);
      HalfOpenChunks(HalfOpenRanges(size, c))
    else WholeBody
  }

  /** Above one byte per chunk the chunk size is at least 1, and the ranges tile the body. */
  lemma HalfOpenRangesTile(size: int, chunkCount: nat)
    requires 1 <= chunkCount < size
    ensures GoDiv(size, chunkCount) >= 1
    ensures Tiles(HalfOpenRanges(size, chunkCount), size)
  {
    var chunkSize := GoDiv(size, chunkCount);
    var rs := HalfOpenRanges(size, chunkCount);
    assert chunkSize >= 1 by {
      if chunkSize <= 0 {
        MulMono(chunkSize, 0, chunkCount);
        assert false;
      }
    }
    forall i | 0 <= i < chunkCount - 1
      ensures rs[i].end == rs[i + 1].start
    {
      MulStep(i, chunkSize);
    }
    forall i | 0 <= i < chunkCount
      ensures rs[i].start < rs[i].end
    {
      if i == chunkCount - 1 {
        MulStep(i, chunkSize);
        assert (i + 1) * chunkSize == chunkCount * chunkSize;
      }
    }
  }

  /** The first position of `-` in `s`, or `|s|` when there is none. */
  function DashAt(s: string): (k: nat)
    ensures k <= |s| && '-' !in s[..k]
    ensures k < |s| ==> s[k] == '-'
  {
    if s == [] || s[0] == '-' then 0
    else
      var k := 1 + DashAt(s[1..]);
      assert s[..k] == [s[0]] + s[1..][..k - 1];
      k
  }

  /** How a server reads `bytes=first-last`: split at the first `-` after `bytes=`, then
      two decimal positions. */
  function ParseRangeHeader(h: string): Option<(int, int)>
  {
    if |h| < 6 || h[..6] != "bytes=" then None
    else
      var rest := h[6..];
      var k := DashAt(rest);
      if k == |rest| then None
      else
        match (ParseInt(rest[..k]), ParseInt(rest[k + 1..]))
        case (Some(first), Some(last)) => Some((first, last))
        case _ => None
  }

  /** A sign-free prefix is passed over whole by the search for `-`. */
  lemma {:induction false} DashAfter(first: string, tail: string)
    requires '-' !in first
    ensures DashAt(first + tail) == |first| + DashAt(tail)
    decreases |first|
  {
    if first == [] {
      assert first + tail == tail;
    } else {
      assert (first + tail)[1..] == first[1..] + tail;
      DashAfter(first[1..], tail);
    }
  }

  /** A sign-free first position is cut off at the `-` that follows it. */
  lemma SplitAtDash(first: string, last: string)
    requires '-' !in first
    ensures var rest := first + "-" + last;
      DashAt(rest) == |first| && rest[..|first|] == first && rest[|first| + 1..] == last
  {
    DashAfter(first, "-" + last);
    assert first + "-" + last == first + ("-" + last);
  }

  /** A header whose first position is plain digits reads back as its two positions. */
  lemma ParseRangeHeaderOf(first: string, last: string)
    requires PlainDigits(first) && ParseInt(last).Some?
    ensures ParseRangeHeader("bytes=" + first + "-" + last) == Some((ParseInt(first).value, ParseInt(last).value))
  {
    var h := "bytes=" + first + "-" + last;
    assert h[..6] == "bytes=" && h[6..] == first + "-" + last;
    SplitAtDash(first, last);
  }

  /** The `Range` header of a half-open chunk: its last byte is `end - 1`. For a chunk that
      starts at a position (`start >= 0`), reading the header back gives the chunk's first
      and last byte. */
  function RangeHeader(r: HalfOpen): (h: string)
    ensures |h| >= 6 && h[..6] == "bytes="
    ensures r.start >= 0 ==> ParseRangeHeader(h) == Some((r.start, r.end - 1))
  {
    var first, last := FormatInt(r.start), FormatInt(r.end - 1);
    var h := "bytes=" + first + "-" + last;
    assert r.start >= 0 ==> ParseRangeHeader(h) == Some((r.start, r.end - 1)) by {
      if r.start >= 0 { ParseRangeHeaderOf(first, last); }
    }
    h
  }

  /** Where the flow of `DownloadFile` ends once the first response is in: the send error,
      a status other than 200, a `Content-Length` that does not parse, or a plan. */
  datatype Reply = Failed(error: string) | Responded(status: int)

  function DownloadFlow(chunkCount: int, reply: Reply, contentLength: Result<int>): (r: Result<RangedPlan>)
    ensures r.Ok? <==> reply == Responded(200) && contentLength.Ok?
    ensures reply.Failed? ==> r == Err(reply.error)
    ensures reply.Responded? && reply.status != 200 ==>
      r == Err("server returned " + FormatInt(reply.status) + " status")
    ensures r.Ok? ==> r.value == PlanRanged(contentLength.value, chunkCount)
  {
    match reply
    case Failed(e) => Err(e)
    case Responded(status) =>
      if status != 200 then Err("server returned " + FormatInt(status) + " status")
      else match contentLength
        case Err(e) => Err(e)
        case Ok(size) => Ok(PlanRanged(size, chunkCount))
  }
}
