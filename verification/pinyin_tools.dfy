/** Package `pinyin_tools`: rune-by-rune conversion with a fallback to the rune itself, and the
    phrase-aware conversion whose separators are rewritten afterwards.

    The dictionaries are not modelled. `pinyin.Pinyin(str, args)` is the parameter `readings`
    (one list of readings per Chinese rune it recognised, in order), and `phrase.Paragraph` is
    the parameter `paragraph`. */
module PinyinTools {
  import opened Seqs
  import opened GoStrings
  import opened Hanzi

  /** What the rune walk emits for rune `c` when `idx` Chinese runes came before it: the
      first reading of the `idx`-th entry, or the rune itself when there is none. */
  function RuneReading(c: char, idx: nat, readings: seq<seq<string>>): string
  {
    if IsChinese(c) && idx < |readings| && |readings[idx]| > 0 then readings[idx][0] else [c]
  }

  /** The intended list: one part per rune, each chosen by its position among the Chinese runes. */
  function ExpectedParts(str: string, readings: seq<seq<string>>): seq<string>
  {
    seq(|str|, k requires 0 <= k < |str| => RuneReading(str[k], ChineseCount(str[..k]), readings))
  }

  lemma ExpectedPartsPointwise(str: string, list: seq<string>, readings: seq<seq<string>>)
    requires |list| == |str|
    requires forall k :: 0 <= k < |str| ==> list[k] == RuneReading(str[k], ChineseCount(str[..k]), readings)
    ensures list == ExpectedParts(str, readings)
  {
  }

  /** `ConvertToPinyinListSimple`: walks the runes once, advancing the reading index only on
      Chinese runes. */
  method ConvertToPinyinListSimple(str: string, readings: seq<seq<string>>) returns (list: seq<string>)
    ensures |list| == |str|
    ensures forall k :: 0 <= k < |str| && !IsChinese(str[k]) ==> list[k] == [str[k]]
    ensures forall k :: 0 <= k < |str| && IsChinese(str[k]) ==>
      list[k] == RuneReading(str[k], ChineseCount(str[..k]), readings)
    ensures list == ExpectedParts(str, readings)
  {
    list := [];
    var idx := 0;
    var i := 0;
    while i < |str|
      invariant 0 <= i <= |str|
      invariant |list| == i
      invariant idx == ChineseCount(str[..i])
      invariant forall k :: 0 <= k < i ==> list[k] == RuneReading(str[k], ChineseCount(str[..k]), readings)
    {
      var c := str[i];
      ChineseCountStep(str, i);
      if IsChinese(c) {
        if idx < |readings| && |readings[idx]| > 0 {
          list := list + [readings[idx][0]];
        } else {
          list := list + [[c]];
        }
        idx := idx + 1;
      } else {
        list := list + [[c]];
      }
      i := i + 1;
    }
  }

  /** `ConvertToPinyinSimple`: the list above joined with `split`. */
  method ConvertToPinyinSimple(str: string, split: string, readings: seq<seq<string>>) returns (r: string)
    ensures r == Join(ExpectedParts(str, readings), split)
  {
    var list := ConvertToPinyinListSimple(str, readings);
    r := Join(list, split);
  }

  /** `ConvertToPinyin`: the dictionary's space-separated text with the separators rewritten:
      "" removes every space, " " keeps the text, any other `split` replaces each space. */
  function ConvertToPinyin(paragraph: string -> string, str: string, split: string): (r: string)
    ensures r == ReplaceSpaces(paragraph(str), split)
    ensures ' ' !in split ==> ' ' !in r
  {
    var result := paragraph(str);
    if split != " " && split != "" then ReplaceSpaces(result, split)
    else if split == "" then ReplaceSpaces(result, "")
    else
      ReplaceSpaceBySpace(result);
      result
  }

  /** When the dictionary's text is words separated by single spaces, the result is those
      words joined with `split`, for every `split` including "" and " ". */
  lemma ConvertToPinyinOfWords(paragraph: string -> string, str: string, split: string, words: seq<string>)
    requires paragraph(str) == Join(words, " ")
    requires forall k :: 0 <= k < |words| ==> ' ' !in words[k]
    ensures ConvertToPinyin(paragraph, str, split) == Join(words, split)
  {
    ReplaceSpacesOfJoin(words, split);
  }

  /** `ConvertToPinyinList`: the dictionary's text split on white space. */
  function ConvertToPinyinList(paragraph: string -> string, str: string): (r: seq<string>)
    ensures forall k :: 0 <= k < |r| ==> r[k] != "" && NoSpace(r[k])
    ensures Concat(r) == DropSpaces(paragraph(str))
  {
    Fields(paragraph(str))
  }

  /** The list and the string agree: for words separated by single spaces, the list is the
      words themselves. */
  lemma ConvertToPinyinListOfWords(paragraph: string -> string, str: string, words: seq<string>)
    requires paragraph(str) == Join(words, " ")
    requires forall k :: 0 <= k < |words| ==> words[k] != "" && NoSpace(words[k])
    ensures ConvertToPinyinList(paragraph, str) == words
  {
    FieldsOfJoin(words);
  }
}
