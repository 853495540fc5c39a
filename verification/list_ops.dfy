/** The generic slice helpers of package `list`: fixed-size chunking,
    first-occurrence deduplication, order-preserving difference and membership. */
module ListOps {
  import opened Wrappers
  import opened Seqs
  import opened GoInt

  const NonPositiveN := "n must be greater than 0"

  /** Cuts `s` into consecutive pieces of `n` elements; the last piece keeps the remainder. */
  function Chunks<T>(s: seq<T>, n: nat): (r: seq<seq<T>>)
    requires n > 0
    ensures Concat(r) == s
    ensures forall i :: 0 <= i < |r| - 1 ==> |r[i]| == n
    ensures |r| > 0 ==> 1 <= |r[|r| - 1]| <= n
    ensures |r| == CeilDiv(|s|, n)
    decreases |s|
  {
    if |s| == 0 then []
    else
      var end := if |s| < n then |s| else n;
      var rest := Chunks(s[end..], n);
      assert ([s[..end]] + rest)[1..] == rest;
      if end < n || |s| == n then
        assert CeilDiv(|s|, n) == 1 by { CeilDivUnique(|s|, n, 1); }
        [s[..end]] + rest
      else
        assert CeilDiv(|s|, n) == |rest| + 1 by { CeilDivStep(|s|, n); }
        [s[..end]] + rest
  }

  /** The loop of `SplitList` from start index `i` on, in Go's `int`: `end := i + n` and
      `i += n` wrap, and `list[i:end]` with `end < i` panics (`None`). */
  function SplitFrom<T>(list: seq<T>, n: int, i: int): (r: Option<seq<seq<T>>>)
    requires 0 < n <= MaxInt && |list| <= MaxInt && 0 <= i <= MaxInt
    decreases |list| - i
  {
    if i >= |list| then Some([])
    else
      var end := AddNonNeg(i, n);
      var end := if end > |list| then |list| else end;
      if end < i then None
      else
        match SplitFrom(list, n, AddNonNeg(i, n))
        case None => None
        case Some(rest) => Some([list[i..end]] + rest)
  }

  /** A list no longer than `n` is one piece. */
  lemma ChunksOne<T>(s: seq<T>, n: nat)
    requires 0 < |s| <= n
    ensures Chunks(s, n) == [s]
  {
    assert s[..|s|] == s;
  }

  /** A list longer than `n` starts with a full piece. */
  lemma ChunksMore<T>(s: seq<T>, n: nat)
    requires 0 < n < |s|
    ensures Chunks(s, n) == [s[..n]] + Chunks(s[n..], n)
  {
  }

  /** One pass of the loop whose `end` wraps panics. */
  lemma SplitFromWraps<T>(list: seq<T>, n: int, i: int)
    requires 0 < n <= MaxInt && |list| <= MaxInt && 0 <= i < |list|
    requires i + n > MaxInt
    ensures SplitFrom(list, n, i) == None
  {
    WrapOfSum(i + n);
  }

  /** One pass of the loop that reaches the end of the list writes the last piece. */
  lemma SplitFromLast<T>(list: seq<T>, n: int, i: int)
    requires 0 < n <= MaxInt && |list| <= MaxInt && 0 <= i < |list|
    requires |list| <= i + n <= MaxInt
    ensures SplitFrom(list, n, i) == Some([list[i..]])
  {
    assert SplitFrom(list, n, i + n) == Some([]);
    assert list[i..|list|] == list[i..];
    assert [list[i..]] + [] == [list[i..]];
  }

  /** One pass of the loop that stops short of the end writes a full piece and goes on. */
  lemma SplitFromNext<T>(list: seq<T>, n: int, i: int)
    requires 0 < n <= MaxInt && |list| <= MaxInt && 0 <= i
    requires i + n < |list|
    ensures SplitFrom(list, n, i).None? <==> SplitFrom(list, n, i + n).None?
    ensures SplitFrom(list, n, i).Some? ==>
      SplitFrom(list, n, i).value == [list[i..i + n]] + SplitFrom(list, n, i + n).value
  {
    WrapOfSum(i + n);
  }

  /** Where the last piece of the loop from `i` ends, before `end` is cut back to the length. */
  function LastEnd(len: nat, n: nat, i: nat): (e: nat)
    requires n > 0 && i < len
    ensures e >= i + n
    decreases len - i
  {
    if i + n >= len then i + n else LastEnd(len, n, i + n)
  }

  /** The last piece ends at the first multiple of `n` past the start that covers the list. */
  lemma {:induction false} LastEndCeil(len: nat, n: nat, i: nat)
    requires n > 0 && i < len
    ensures LastEnd(len, n, i) == i + CeilDiv(len - i, n) * n
    decreases len - i
  {
    if i + n >= len {
      CeilDivUnique(len - i, n, 1);
    } else {
      LastEndCeil(len, n, i + n);
      CeilDivStep(len - i, n);
      var c' := CeilDiv(len - (i + n), n);
      assert (c' + 1) * n == c' * n + n;
    }
  }

  /** What the loop from `i` does: it panics exactly when the `end` of its last piece passes
      `MaxInt`, and otherwise it chunks what is left. */
  ghost predicate LoopChunks<T>(list: seq<T>, n: int, i: int)
    requires 0 < n <= MaxInt && |list| <= MaxInt && 0 <= i <= |list|
  {
    && (SplitFrom(list, n, i).None? <==> i < |list| && LastEnd(|list|, n, i) > MaxInt)
    && (SplitFrom(list, n, i).Some? ==> SplitFrom(list, n, i).value == Chunks(list[i..], n))
  }

  lemma LoopChunksWraps<T>(list: seq<T>, n: int, i: int)
    requires 0 < n <= MaxInt && |list| <= MaxInt && 0 <= i < |list|
    requires i + n > MaxInt
    ensures LoopChunks(list, n, i)
  {
    SplitFromWraps(list, n, i);
  }

  lemma LoopChunksLast<T>(list: seq<T>, n: int, i: int)
    requires 0 < n <= MaxInt && |list| <= MaxInt && 0 <= i < |list|
    requires |list| <= i + n <= MaxInt
    ensures LoopChunks(list, n, i)
  {
    SplitFromLast(list, n, i);
    ChunksOne(list[i..], n);
  }

  lemma LoopChunksNext<T>(list: seq<T>, n: int, i: int)
    requires 0 < n <= MaxInt && |list| <= MaxInt && 0 <= i
    requires i + n < |list| && LoopChunks(list, n, i + n)
    ensures LoopChunks(list, n, i)
  {
    SplitFromNext(list, n, i);
    var s := list[i..];
    ChunksMore(s, n);
    assert s[..n] == list[i..i + n] && s[n..] == list[i + n..];
  }

  /** The loop from `i` panics exactly when the `end` of its last piece passes `MaxInt`;
      otherwise it chunks what is left. */
  lemma {:induction false} SplitFromChunks<T>(list: seq<T>, n: int, i: int)
    requires 0 < n <= MaxInt && |list| <= MaxInt && 0 <= i <= |list|
    ensures LoopChunks(list, n, i)
    decreases |list| - i
  {
    if i == |list| {
    } else if i + n > MaxInt {
      LoopChunksWraps(list, n, i);
    } else if i + n >= |list| {
      LoopChunksLast(list, n, i);
    } else {
      SplitFromChunks(list, n, i + n);
      LoopChunksNext(list, n, i);
    }
  }

  /** The whole loop panics exactly when `CeilDiv(len(list), n) * n` passes `MaxInt`, and
      otherwise chunks the list. */
  lemma SplitFromStart<T>(list: seq<T>, n: int)
    requires 0 < n <= MaxInt && |list| <= MaxInt
    ensures SplitFrom(list, n, 0).None? <==> CeilDiv(|list|, n) * n > MaxInt
    ensures SplitFrom(list, n, 0).Some? ==> SplitFrom(list, n, 0).value == Chunks(list, n)
  {
    if list == [] {
      assert SplitFrom(list, n, 0) == Some([]);
      assert CeilDiv(0, n) == 0;
    } else {
      SplitFromChunks(list, n, 0);
      assert list[0..] == list;
      var e := LastEnd(|list|, n, 0);
      assert SplitFrom(list, n, 0).None? <==> e > MaxInt;
      LastEndCeil(|list|, n, 0);
    }
  }

  /** `SplitList` as written: `n <= 0` is refused, and otherwise the list is chunked by `n`,
      except that the loop panics (`None`) when `end := i + n` wraps on the last piece. That
      needs `CeilDiv(len(list), n) * n > MaxInt`, which a slice of zero-size elements can
      reach (`SplitListOverflows`). */
  function SplitList<T>(list: seq<T>, n: int): (r: Option<Result<seq<seq<T>>>>)
    requires MinInt <= n <= MaxInt && |list| <= MaxInt
    ensures r.None? <==> n > 0 && CeilDiv(|list|, n) * n > MaxInt
    ensures r.Some? ==> (r.value.Err? <==> n <= 0)
    ensures r.Some? && r.value.Err? ==> r.value.error == NonPositiveN
    ensures r.Some? && r.value.Ok? ==> var v := r.value.value;
      && Concat(v) == list
      && (forall i :: 0 <= i < |v| - 1 ==> |v[i]| == n)
      && (|v| > 0 ==> 1 <= |v[|v| - 1]| <= n)
      && |v| == CeilDiv(|list|, n)
  {
    if n <= 0 then Some(Err(NonPositiveN))
    else
      SplitFromStart(list, n);
      match SplitFrom(list, n, 0)
      case None => None
      case Some(v) => Some(Ok(v))
  }

  /** The input that shows the wrap: `2^62 + 2` zero-size elements in pieces of `2^62 + 1`.
      The second piece starts at `2^62 + 1`, and its `end` of `2^63 + 2` wraps negative. */
  lemma SplitListOverflows<T>(list: seq<T>)
    requires |list| == 0x4000_0000_0000_0002
    ensures SplitList(list, 0x4000_0000_0000_0001) == None
  {
    CeilDivUnique(|list|, 0x4000_0000_0000_0001, 2);
  }

  /** `SplitList` as evidently intended: the last piece ends at `len(list)` however large
      `n` is, so every positive `n` chunks the list. */
  function SplitListCorrected<T>(list: seq<T>, n: int): (r: Result<seq<seq<T>>>)
    ensures r.Err? <==> n <= 0
    ensures r.Err? ==> r.error == NonPositiveN
    ensures r.Ok? ==> Concat(r.value) == list
    ensures r.Ok? ==> forall i :: 0 <= i < |r.value| - 1 ==> |r.value[i]| == n
    ensures r.Ok? && |r.value| > 0 ==> 1 <= |r.value[|r.value| - 1]| <= n
    ensures r.Ok? ==> |r.value| == CeilDiv(|list|, n)
    ensures r.Ok? && list == [] ==> r.value == []
  {
    if n <= 0 then Err(NonPositiveN) else Ok(Chunks(list, n))
  }

  /** Wherever the code as written returns, it returns what the corrected version does. */
  lemma SplitListAgrees<T>(list: seq<T>, n: int)
    requires MinInt <= n <= MaxInt && |list| <= MaxInt
    ensures SplitList(list, n).Some? ==> SplitList(list, n).value == SplitListCorrected(list, n)
  {
    if n > 0 {
      SplitFromStart(list, n);
    }
  }

  /** No element occurs twice. */
  predicate NoDup<T(==)>(s: seq<T>)
  {
    forall i, j :: 0 <= i < j < |s| ==> s[i] != s[j]
  }

  /** Position of the first occurrence of `x` in `s`. */
  function FirstIndex<T(==)>(s: seq<T>, x: T): (k: nat)
    requires x in s
    ensures k < |s| && s[k] == x && x !in s[..k]
  {
    if s[0] == x then 0
    else
      var k := 1 + FirstIndex(s[1..], x);
      assert s[..k] == [s[0]] + s[1..][..k - 1];
      k
  }

  /** The loop of `UniqList` from the current position on, `seen` being the keys of `uniqueMap`. */
  function UniqFrom<T(==,!new)>(s: seq<T>, seen: set<T>): (r: seq<T>)
    ensures forall x :: x in r <==> x in s && x !in seen
    ensures NoDup(r)
    ensures |r| <= |s|
    ensures Subseq(r, s)
    ensures forall i, j :: 0 <= i < j < |r| ==> FirstIndex(s, r[i]) < FirstIndex(s, r[j])
  {
    if s == [] then []
    else if s[0] in seen then UniqFrom(s[1..], seen)
    else
      var rest := UniqFrom(s[1..], seen + {s[0]});
      assert ([s[0]] + rest)[1..] == rest;
      [s[0]] + rest
  }

  /** `UniqList`: the distinct elements of `list`, each at its first occurrence, in input order. */
  function UniqList<T(==,!new)>(list: seq<T>): (r: seq<T>)
    ensures forall x :: x in r <==> x in list
    ensures NoDup(r)
    ensures |r| <= |list|
    ensures Subseq(r, list)
    ensures forall i, j :: 0 <= i < j < |r| ==> FirstIndex(list, r[i]) < FirstIndex(list, r[j])
  {
    UniqFrom(list, {})
  }

  /** A list that is already duplicate-free and avoids `seen` is returned unchanged. */
  lemma {:induction false} UniqFromDistinct<T(!new)>(s: seq<T>, seen: set<T>)
    requires NoDup(s)
    requires forall x :: x in s ==> x !in seen
    ensures UniqFrom(s, seen) == s
    decreases |s|
  {
    if s != [] {
      assert s == [s[0]] + s[1..];
      assert NoDup(s[1..]);
      forall x | x in s[1..]
        ensures x !in seen + {s[0]}
      {
        var k :| 0 <= k < |s[1..]| && s[1..][k] == x;
        assert s[k + 1] == x;
      }
      UniqFromDistinct(s[1..], seen + {s[0]});
    }
  }

  /** `UniqList` is idempotent. */
  lemma UniqListIdempotent<T(!new)>(list: seq<T>)
    ensures UniqList(UniqList(list)) == UniqList(list)
  {
    UniqFromDistinct(UniqList(list), {});
  }

  /** The loop of `FindDifferenceNotInSlice2`, `excluded` being the keys of `elementMap`. */
  function Filter<T(==,!new)>(s: seq<T>, excluded: set<T>): (r: seq<T>)
    ensures forall x :: x in r <==> x in s && x !in excluded
    ensures forall x :: x !in excluded ==> Count(r, x) == Count(s, x)
    ensures forall x :: x in excluded ==> Count(r, x) == 0
    ensures Subseq(r, s)
  {
    if s == [] then []
    else if s[0] in excluded then Filter(s[1..], excluded)
    else
      var rest := Filter(s[1..], excluded);
      assert ([s[0]] + rest)[1..] == rest;
      [s[0]] + rest
  }

  /** `FindDifferenceNotInSlice2`: the elements of `slice1` absent from `slice2`,
      duplicates and order kept. */
  function FindDifferenceNotInSlice2<T(==,!new)>(slice1: seq<T>, slice2: seq<T>): (r: seq<T>)
    ensures forall x :: x in r <==> x in slice1 && x !in slice2
    ensures forall x :: x !in slice2 ==> Count(r, x) == Count(slice1, x)
    ensures forall x :: x in slice2 ==> Count(r, x) == 0
    ensures Subseq(r, slice1)
  {
    Filter(slice1, set x | x in slice2)
  }

  /** With nothing to remove, the filter is the identity. */
  lemma {:induction false} FilterNothing<T(!new)>(s: seq<T>)
    ensures Filter(s, {}) == s
  {
    if s != [] {
      FilterNothing(s[1..]);
    }
  }

  lemma DifferenceWithEmpty<T(!new)>(slice1: seq<T>)
    ensures FindDifferenceNotInSlice2(slice1, []) == slice1
  {
    assert (set x: T | x in []) == {};
    FilterNothing(slice1);
  }

  /** The difference is computed element by element: it distributes over concatenation. */
  lemma {:induction false} FilterAppend<T(!new)>(a: seq<T>, b: seq<T>, excluded: set<T>)
    ensures Filter(a + b, excluded) == Filter(a, excluded) + Filter(b, excluded)
    decreases |a|
  {
    if a != [] {
      assert (a + b)[1..] == a[1..] + b;
      FilterAppend(a[1..], b, excluded);
    } else {
      assert a + b == b;
    }
  }

  lemma DifferenceAppend<T(!new)>(a: seq<T>, b: seq<T>, slice2: seq<T>)
    ensures FindDifferenceNotInSlice2(a + b, slice2)
         == FindDifferenceNotInSlice2(a, slice2) + FindDifferenceNotInSlice2(b, slice2)
  {
    FilterAppend(a, b, set x | x in slice2);
  }

  /** `InList`: true exactly when some element equals `one`. */
  function InList<T(==)>(one: T, list: seq<T>): (r: bool)
    ensures r <==> exists i :: 0 <= i < |list| && list[i] == one
  {
    if list == [] then false
    else if list[0] == one then true
    else
      var r := InList(one, list[1..]);
      assert r ==> exists i :: 0 <= i < |list| && list[i] == one by {
        if r { var i :| 0 <= i < |list[1..]| && list[1..][i] == one; assert list[i + 1] == one; }
      }
      r
  }

  /** Membership distributes over concatenation. */
  lemma {:induction false} InListAppend<T>(x: T, a: seq<T>, b: seq<T>)
    ensures InList(x, a + b) == (InList(x, a) || InList(x, b))
  {
    if InList(x, a) {
      var i :| 0 <= i < |a| && a[i] == x;
      assert (a + b)[i] == x;
    } else if InList(x, b) {
      var i :| 0 <= i < |b| && b[i] == x;
      assert (a + b)[|a| + i] == x;
    }
  }
}
