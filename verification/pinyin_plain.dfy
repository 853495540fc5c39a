/** Package `pinyin`: the rune walk without a fallback. A Chinese rune whose reading is
    missing makes the index expression `pinyinStr[idx][0]` panic; the model returns `None`
    for that run. The dictionary output `pinyin.Pinyin(str, args)` is the parameter `readings`. */
module PinyinPlain {
  import opened Wrappers
  import opened GoStrings
  import opened Hanzi
  import PinyinTools

  /** `ConvertToPinyin`: one part per rune (a reading for each Chinese rune, the rune itself
      otherwise) joined with `split`; `None` when the walk would index past the readings. */
  method ConvertToPinyin(str: string, split: string, readings: seq<seq<string>>) returns (r: Option<string>)
    ensures r.Some? <==> EnoughReadings(ChineseCount(str), readings)
    ensures r.Some? ==> r.value == Join(PinyinTools.ExpectedParts(str, readings), split)
  {
    var list: seq<string> := [];
    var idx := 0;
    var i := 0;
    while i < |str|
      invariant 0 <= i <= |str|
      invariant idx == ChineseCount(str[..i])
      invariant EnoughReadings(idx, readings)
      invariant PartsSoFar(str, list, readings) && |list| == i
    {
      var c := str[i];
      ChineseCountStep(str, i);
      var part: string;
      if IsChinese(c) {
        if !(idx < |readings| && |readings[idx]| > 0) {
          MissingReading(str, i, readings);
          return None;
        }
        EnoughReadingsStep(idx, readings);
        part := readings[idx][0];
        idx := idx + 1;
      } else {
        part := [c];
      }
      PartsStep(str, list, readings, part);
      list := list + [part];
      i := i + 1;
    }
    assert str[..i] == str;
    PinyinTools.ExpectedPartsPointwise(str, list, readings);
    r := Some(Join(list, split));
  }

  /** The parts emitted for the first `|list|` runes. */
  predicate PartsSoFar(str: string, list: seq<string>, readings: seq<seq<string>>)
  {
    |list| <= |str|
    && forall k :: 0 <= k < |list| ==> list[k] == PinyinTools.RuneReading(str[k], ChineseCount(str[..k]), readings)
  }

  lemma PartsStep(str: string, list: seq<string>, readings: seq<seq<string>>, part: string)
    requires PartsSoFar(str, list, readings) && |list| < |str|
    requires part == PinyinTools.RuneReading(str[|list|], ChineseCount(str[..|list|]), readings)
    ensures PartsSoFar(str, list + [part], readings)
  {
  }

  lemma EnoughReadingsStep(n: nat, readings: seq<seq<string>>)
    requires EnoughReadings(n, readings)
    requires n < |readings| && |readings[n]| > 0
    ensures EnoughReadings(n + 1, readings)
  {
  }

  /** A Chinese rune at `i` without a reading leaves too few readings for the whole text. */
  lemma MissingReading(str: string, i: nat, readings: seq<seq<string>>)
    requires i < |str| && IsChinese(str[i])
    requires !(ChineseCount(str[..i]) < |readings| && |readings[ChineseCount(str[..i])]| > 0)
    ensures !EnoughReadings(ChineseCount(str), readings)
  {
    ChineseCountStep(str, i);
    PrefixCountBelow(str, i + 1);
  }

  /** A prefix holds no more Chinese runes than the whole text. */
  lemma {:induction false} PrefixCountBelow(str: string, n: nat)
    requires n <= |str|
    ensures ChineseCount(str[..n]) <= ChineseCount(str)
    decreases |str| - n
  {
    if n < |str| {
      ChineseCountStep(str, n);
      PrefixCountBelow(str, n + 1);
    } else {
      assert str[..n] == str;
    }
  }
}
