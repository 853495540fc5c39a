/** `ExtractJsonFromStr`: finds the first bracket-balanced span in a string.
    The scanner counts `{`/`[` as openers and `}`/`]` as closers with one shared
    counter: bracket kinds are not paired and brackets inside string literals count.
    The Go code indexes bytes; every bracket is a one-byte ASCII character that never
    occurs inside a multi-byte UTF-8 sequence, so scanning characters yields the same span. */
module JsonExtract {
  import opened Wrappers

  const NoJsonFound := "no JSON found in input string"
  const IncompleteJson := "incomplete JSON string"

  predicate IsOpener(c: char) { c == '{' || c == '[' }

  predicate IsCloser(c: char) { c == '}' || c == ']' }

  /** What one character does to the shared counter. */
  function Step(c: char): int
  {
    if IsOpener(c) then 1 else if IsCloser(c) then -1 else 0
  }

  /** Openers minus closers in `t`. */
  function Balance(t: string): int
  {
    if t == [] then 0 else Balance(t[..|t| - 1]) + Step(t[|t| - 1])
  }

  /** The counter after the first `k` characters of `s`, counted from index 0. */
  function Depth(s: string, k: nat): int
    requires k <= |s|
  {
    Balance(s[..k])
  }

  lemma DepthStep(s: string, i: nat)
    requires i < |s|
    ensures Depth(s, i + 1) == Depth(s, i) + Step(s[i])
  {
    assert s[..i + 1][..i] == s[..i];
  }

  lemma {:induction false} BalanceAppend(x: string, y: string)
    ensures Balance(x + y) == Balance(x) + Balance(y)
    decreases |y|
  {
    if y == [] {
      assert x + y == x;
    } else {
      var y' := y[..|y| - 1];
      assert (x + y)[..|x + y| - 1] == x + y';
      BalanceAppend(x, y');
    }
  }

  /** The balance of a slice is the difference of the depths at its ends. */
  lemma BalanceOfSlice(s: string, a: nat, k: nat)
    requires a <= k <= |s|
    ensures Balance(s[a..k]) == Depth(s, k) - Depth(s, a)
  {
    assert s[..k] == s[..a] + s[a..k];
    BalanceAppend(s[..a], s[a..k]);
  }

  /** An opener met while the counter is 0: the scanner records a start there. */
  predicate IsStart(s: string, a: int)
  {
    0 <= a < |s| && IsOpener(s[a]) && Depth(s, a) == 0
  }

  predicate IsFirstStart(s: string, a: int)
  {
    IsStart(s, a) && forall k :: 0 <= k < a ==> !IsStart(s, k)
  }

  /** `e` is where the counter first returns to 0 after the start `a`. */
  predicate IsEnd(s: string, a: int, e: int)
  {
    0 <= a < e < |s| && Depth(s, e + 1) == 0 && forall k :: a < k <= e ==> Depth(s, k) >= 1
  }

  lemma FirstStartUnique(s: string, a: int, b: int)
    requires IsFirstStart(s, a) && IsFirstStart(s, b)
    ensures a == b
  {
  }

  /** The loop of `ExtractJsonFromStr` from index `i` on; `stack`, `start` and `found`
      are the Go variables `stack`, `jsonStart` and `found`. */
  function Scan(s: string, i: nat, stack: int, start: nat, found: bool): Result<string>
    requires start <= i <= |s|
    decreases |s| - i
  {
    if i == |s| then
      if !found then Err(NoJsonFound) else Err(IncompleteJson)
    else if IsOpener(s[i]) then
      if stack == 0 then Scan(s, i + 1, stack + 1, i, true)
      else Scan(s, i + 1, stack + 1, start, found)
    else if IsCloser(s[i]) then
      if stack - 1 == 0 && found then Ok(s[start..i + 1])
      else Scan(s, i + 1, stack - 1, start, found)
    else Scan(s, i + 1, stack, start, found)
  }

  /** The loop invariant of the scanner, stated against the whole input. */
  ghost predicate ScanInvariant(s: string, i: nat, stack: int, start: nat, found: bool)
    requires i <= |s|
  {
    && stack == Depth(s, i)
    && (found <==> exists k :: 0 <= k < i && IsStart(s, k))
    && (found ==> start < i && IsFirstStart(s, start))
    && (found ==> forall k :: start < k <= i ==> Depth(s, k) >= 1)
  }

  /** What the scan returns, stated against the whole input. */
  ghost predicate ScanMeaning(s: string, r: Result<string>)
  {
    && (r == Err(NoJsonFound) <==> forall a :: 0 <= a < |s| ==> !IsStart(s, a))
    && (r == Err(IncompleteJson) <==> exists a :: IsFirstStart(s, a) && forall e :: !IsEnd(s, a, e))
    && (r.Ok? ==> exists a, e :: IsFirstStart(s, a) && IsEnd(s, a, e) && r.value == s[a..e + 1])
    && (r.Ok? || r == Err(NoJsonFound) || r == Err(IncompleteJson))
  }

  /** The scanner's variables after character `i` when it does not return there. */
  function Next(s: string, i: nat, stack: int, start: nat, found: bool): (int, nat, bool)
    requires i < |s|
  {
    if IsOpener(s[i]) then
      if stack == 0 then (stack + 1, i, true) else (stack + 1, start, found)
    else if IsCloser(s[i]) then (stack - 1, start, found)
    else (stack, start, found)
  }

  /** The input is exhausted: no start seen, or a start that is never balanced. */
  lemma ScanAtEnd(s: string, stack: int, start: nat, found: bool)
    requires start <= |s|
    requires ScanInvariant(s, |s|, stack, start, found)
    ensures ScanMeaning(s, Scan(s, |s|, stack, start, found))
  {
    if found {
      forall e ensures !IsEnd(s, start, e) { }
    }
  }

  /** The counter returns to 0 after the first start: that span is the answer. */
  lemma ScanAtClose(s: string, i: nat, stack: int, start: nat, found: bool)
    requires start <= i < |s|
    requires ScanInvariant(s, i, stack, start, found)
    requires IsCloser(s[i]) && stack - 1 == 0 && found
    ensures ScanMeaning(s, Scan(s, i, stack, start, found))
  {
    DepthStep(s, i);
    assert IsEnd(s, start, i);
    forall a | IsFirstStart(s, a) ensures a == start { FirstStartUnique(s, a, start); }
  }

  /** Any other character keeps the invariant. */
  lemma ScanStep(s: string, i: nat, stack: int, start: nat, found: bool)
    requires start <= i < |s|
    requires ScanInvariant(s, i, stack, start, found)
    requires !(IsCloser(s[i]) && stack - 1 == 0 && found)
    ensures var (stack', start', found') := Next(s, i, stack, start, found);
      start' <= i + 1 && ScanInvariant(s, i + 1, stack', start', found')
      && Scan(s, i, stack, start, found) == Scan(s, i + 1, stack', start', found')
  {
    DepthStep(s, i);
    if IsOpener(s[i]) && stack == 0 {
      assert IsStart(s, i);
      assert IsFirstStart(s, i);
    } else {
      assert !IsStart(s, i);
    }
  }

  lemma {:induction false} ScanCorrect(s: string, i: nat, stack: int, start: nat, found: bool)
    requires start <= i <= |s|
    requires ScanInvariant(s, i, stack, start, found)
    ensures ScanMeaning(s, Scan(s, i, stack, start, found))
    decreases |s| - i
  {
    if i == |s| {
      ScanAtEnd(s, stack, start, found);
    } else if IsCloser(s[i]) && stack - 1 == 0 && found {
      ScanAtClose(s, i, stack, start, found);
    } else {
      ScanStep(s, i, stack, start, found);
      var (stack', start', found') := Next(s, i, stack, start, found);
      ScanCorrect(s, i + 1, stack', start', found');
    }
  }

  /** `ExtractJsonFromStr`. The result is
      - "no JSON found" exactly when no opener is met at counter 0,
      - "incomplete" exactly when the first such opener is never balanced,
      - otherwise the span from that opener to where the counter first returns to 0. */
  function ExtractJsonFromStr(s: string): (r: Result<string>)
    ensures r == Err(NoJsonFound) <==> forall a :: 0 <= a < |s| ==> !IsStart(s, a)
    ensures r == Err(IncompleteJson) <==> exists a :: IsFirstStart(s, a) && forall e :: !IsEnd(s, a, e)
    ensures r.Ok? ==> exists a, e :: IsFirstStart(s, a) && IsEnd(s, a, e) && r.value == s[a..e + 1]
    ensures r.Ok? || r == Err(NoJsonFound) || r == Err(IncompleteJson)
  {
    assert s[..0] == [];
    ScanCorrect(s, 0, 0, 0, false);
    Scan(s, 0, 0, 0, false)
  }

  /** A successful extraction is the piece `s[a..e+1]` of the input; it opens with `{` or `[`,
      closes with `}` or `]`, is balanced, and stays above depth 0 on every proper prefix. */
  lemma ExtractedSpanIsBalanced(s: string) returns (a: nat, e: nat)
    requires ExtractJsonFromStr(s).Ok?
    ensures a < e < |s| && ExtractJsonFromStr(s).value == s[a..e + 1]
    ensures IsOpener(s[a]) && IsCloser(s[e])
    ensures Balance(s[a..e + 1]) == 0
    ensures forall k :: a < k <= e ==> Balance(s[a..k]) >= 1
  {
    a, e :| IsFirstStart(s, a) && IsEnd(s, a, e) && ExtractJsonFromStr(s).value == s[a..e + 1];
    BalanceOfSlice(s, a, e + 1);
    forall k | a < k <= e
      ensures Balance(s[a..k]) >= 1
    {
      BalanceOfSlice(s, a, k);
    }
    DepthStep(s, e);
  }

  /** A stray closer drives the counter to -1, so the pair after it only returns the counter
      to 0 and is never seen as a start. */
  lemma StrayCloserHidesJson()
    ensures ExtractJsonFromStr("]{}") == Err(NoJsonFound)
  {
  }

  /** A stray closer shifts the depth by one: the inner pair of a later object is what is
      returned. */
  lemma StrayCloserShiftsDepth()
    ensures ExtractJsonFromStr("]{{}}") == Ok("{}")
  {
    assert "]{{}}"[2..4] == "{}";
  }

  /** `{` may be closed by `]`. */
  lemma KindsAreNotPaired()
    ensures ExtractJsonFromStr("x{]y") == Ok("{]")
  {
    assert "x{]y"[1..3] == "{]";
  }

  /** A closing brace inside a string literal still counts. */
  lemma BracketsInStringsCount()
    ensures ExtractJsonFromStr("{\"a\":\"}\"}") == Ok("{\"a\":\"}")
  {
    assert "{\"a\":\"}\"}"[0..7] == "{\"a\":\"}";
  }

  lemma UnclosedIsIncomplete()
    ensures ExtractJsonFromStr("ok {[}") == Err(IncompleteJson)
  {
  }
}
