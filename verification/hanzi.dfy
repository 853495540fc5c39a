/** The Chinese-character test shared by both pinyin converters, and the per-rune reading
    they choose from the dictionary's output. */
module Hanzi {

  /** `isChinese`: the CJK Unified Ideographs block U+4E00..U+9FA5. */
  predicate IsChinese(c: char)
  {
    0x4E00 <= c as int <= 0x9FA5
  }

  /** The number of Chinese runes in `s`. */
  function ChineseCount(s: string): (n: nat)
    ensures n <= |s|
  {
    if s == [] then 0
    else ChineseCount(s[..|s| - 1]) + (if IsChinese(s[|s| - 1]) then 1 else 0)
  }

  /** Counting Chinese runes over a prefix one rune longer. */
  lemma ChineseCountStep(s: string, i: nat)
    requires i < |s|
    ensures ChineseCount(s[..i + 1]) == ChineseCount(s[..i]) + (if IsChinese(s[i]) then 1 else 0)
  {
    assert s[..i + 1][..i] == s[..i];
  }

  /** The dictionary has a non-empty reading for each of the first `n` Chinese runes. */
  predicate EnoughReadings(n: nat, readings: seq<seq<string>>)
  {
    forall j :: 0 <= j < n ==> j < |readings| && readings[j] != []
  }

  lemma ChineseExamples()
    ensures IsChinese('\U{4E00}') && IsChinese('\U{9FA5}') && IsChinese('你')
    ensures !IsChinese('\U{4DFF}') && !IsChinese('\U{9FA6}') && !IsChinese('a') && !IsChinese('，')
  {
  }
}
