/** `IntToRoman`: greedy subtractive Roman numerals over a fixed value/symbol table. */
module Roman {

  const Values: seq<nat> := [1000, 900, 500, 400, 100, 90, 50, 40, 10, 9, 5, 4, 1]
  const Symbols: seq<string> := ["M", "CM", "D", "CD", "C", "XC", "L", "XL", "X", "IX", "V", "IV", "I"]

  /** The value of one Roman letter; 0 for anything else. */
  function LetterValue(c: char): nat
  {
    match c
    case 'M' => 1000
    case 'D' => 500
    case 'C' => 100
    case 'L' => 50
    case 'X' => 10
    case 'V' => 5
    case 'I' => 1
    case _ => 0
  }

  /** The usual reading of a numeral: a letter worth less than its successor is subtracted
      from it as a pair, every other letter is added. */
  function RomanValue(s: string): int
  {
    if s == [] then 0
    else if |s| >= 2 && LetterValue(s[0]) < LetterValue(s[1]) then
      LetterValue(s[1]) - LetterValue(s[0]) + RomanValue(s[2..])
    else LetterValue(s[0]) + RomanValue(s[1..])
  }

  /** The two tables are index-aligned (each symbol reads as its value) and strictly decreasing. */
  lemma TableIsAligned()
    ensures |Values| == |Symbols| == 13
    ensures forall i, j :: 0 <= i < j < |Values| ==> Values[i] > Values[j]
    ensures forall i :: 0 <= i < |Symbols| ==> RomanValue(Symbols[i]) == Values[i]
  {
    forall i | 0 <= i < |Symbols|
      ensures RomanValue(Symbols[i]) == Values[i]
    {
      SymbolReadsAsValue(i);
    }
  }

  lemma SymbolReadsAsValue(i: nat)
    requires i < |Symbols|
    ensures RomanValue(Symbols[i]) == Values[i]
  {
    var s := Symbols[i];
    if |s| == 2 {
      assert s[2..] == [];
    } else {
      assert s[1..] == [];
    }
  }

  /** Table entries are either a single letter or a subtractive pair. */
  lemma TokenShape(i: nat)
    requires i < |Symbols|
    ensures |Symbols[i]| == 1 ==> LetterValue(Symbols[i][0]) == Values[i]
    ensures |Symbols[i]| != 1 ==>
      && |Symbols[i]| == 2
      && LetterValue(Symbols[i][0]) < LetterValue(Symbols[i][1])
      && Values[i] == LetterValue(Symbols[i][1]) - LetterValue(Symbols[i][0])
  {
  }

  /** After a single-letter entry, no later entry starts with a letter worth more. */
  lemma LaterEntriesStartNoHigher(i: nat, j: nat)
    requires i <= j < |Symbols| && |Symbols[i]| == 1
    ensures LetterValue(Symbols[j][0]) <= LetterValue(Symbols[i][0])
  {
  }

  /** Each value is at most four times the next one. */
  lemma NextValueRatio(i: nat)
    requires i + 1 < |Values|
    ensures Values[i] <= 4 * Values[i + 1]
  {
  }

  predicate ValidIndices(t: seq<nat>)
  {
    forall k :: 0 <= k < |t| ==> t[k] < |Values|
  }

  /** The total value of a sequence of table entries. */
  function TokenSum(t: seq<nat>): int
    requires ValidIndices(t)
  {
    if t == [] then 0 else Values[t[0]] + TokenSum(t[1..])
  }

  /** The spelling of a sequence of table entries. */
  function Spell(t: seq<nat>): string
    requires ValidIndices(t)
  {
    if t == [] then "" else Symbols[t[0]] + Spell(t[1..])
  }

  /** Entry `j` is the first from position `i` on whose value fits in `num`. */
  predicate FirstFit(num: int, i: nat, j: nat)
    requires i <= j < |Values|
  {
    Values[j] <= num && forall m :: i <= m < j ==> Values[m] > num
  }

  /** The table entries the greedy loops write from table position `i` on. */
  function Tokens(num: int, i: nat): (r: seq<nat>)
    requires i <= |Values|
    ensures forall k :: 0 <= k < |r| ==> i <= r[k] < |Values|
    ensures forall k, l :: 0 <= k < l < |r| ==> r[k] <= r[l]
    ensures num <= 0 ==> r == []
    ensures 0 <= num && i < |Values| ==> TokenSum(r) == num
    // The greedy choice: the first entry written is the first one from `i` on that fits.
    ensures r != [] ==> FirstFit(num, i, r[0])
    decreases |Values| - i, num
  {
    if i == |Values| then []
    else if num >= Values[i] then
      var rest := Tokens(num - Values[i], i);
      assert ([i] + rest)[1..] == rest;
      [i] + rest
    else Tokens(num, i + 1)
  }

  /** One step of the greedy loops: an entry that fits is written, and the loops stay on it. */
  lemma TokensTake(num: int, i: nat)
    requires i < |Values| && num >= Values[i]
    ensures Tokens(num, i) == [i] + Tokens(num - Values[i], i)
  {
  }

  /** The greedy loops write the first entry from `i` on that fits, then go on with what is
      left, from that same entry. */
  lemma Greedy(num: int, i: nat, j: nat)
    requires i <= j < |Values| && FirstFit(num, i, j)
    ensures Tokens(num, i) == [j] + Tokens(num - Values[j], j)
  {
    TokensSkip(num, i, j);
    TokensTake(num, j);
  }

  /** `IntToRoman`: empty for `num <= 0`; otherwise a numeral that reads back as `num`. */
  function IntToRoman(num: int): (r: string)
    ensures num <= 0 ==> r == ""
    ensures num >= 0 ==> RomanValue(r) == num
  {
    var t := Tokens(num, 0);
    SpellReadsAsSum(t);
    Spell(t)
  }

  /** Any non-increasing run of table entries reads back as the sum of their values. */
  lemma {:induction false} SpellReadsAsSum(t: seq<nat>)
    requires ValidIndices(t)
    requires forall k, l :: 0 <= k < l < |t| ==> t[k] <= t[l]
    ensures RomanValue(Spell(t)) == TokenSum(t)
  {
    if t != [] {
      var i := t[0];
      var rest := t[1..];
      var tail := Spell(rest);
      SpellReadsAsSum(rest);
      TokenShape(i);
      var sym := Symbols[i];
      assert Spell(t) == sym + tail;
      if |sym| == 1 {
        if tail != [] {
          assert tail == Symbols[rest[0]] + Spell(rest[1..]);
          LaterEntriesStartNoHigher(i, rest[0]);
          assert (sym + tail)[1] == tail[0] == Symbols[rest[0]][0];
        }
        assert (sym + tail)[1..] == tail;
      } else {
        assert (sym + tail)[2..] == tail;
      }
    }
  }

  /** Below `m` times `Values[i]`, entry `i` is written fewer than `m` times: it does not
      occur at position `m - 1` or later. */
  lemma {:induction false} FewLeading(num: int, i: nat, m: nat)
    requires i < |Values|
    requires 1 <= m && num < m * Values[i]
    ensures forall k :: m - 1 <= k < |Tokens(num, i)| ==> Tokens(num, i)[k] != i
    decreases m
  {
    var v := Values[i];
    assert v >= 1;
    if num >= v {
      var rest := Tokens(num - v, i);
      assert Tokens(num, i) == [i] + rest;
      MultipleStep(m, v);
      if m == 1 {
        assert false;
      }
      FewLeading(num - v, i, m - 1);
    } else {
      assert Tokens(num, i) == Tokens(num, i + 1);
    }
  }

  /** Peeling one `v` off `m * v`. */
  lemma MultipleStep(m: nat, v: nat)
    requires m >= 1
    ensures m * v == (m - 1) * v + v
    ensures m == 1 ==> m * v == v
  {
  }

  /** No entry is written four times in a row. */
  predicate NoFourInARow(t: seq<nat>)
  {
    forall k :: 0 <= k && k + 3 < |t| ==> t[k] != t[k + 3]
  }

  /** Putting `i` in front keeps the property when `i` is not the third entry or later. */
  lemma NoFourCons(i: nat, rest: seq<nat>)
    requires NoFourInARow(rest)
    requires forall k :: 2 <= k < |rest| ==> rest[k] != i
    ensures NoFourInARow([i] + rest)
  {
    var r := [i] + rest;
    forall k | 0 <= k && k + 3 < |r|
      ensures r[k] != r[k + 3]
    {
      if k > 0 {
        assert r[k] == rest[k - 1] && r[k + 3] == rest[k + 2];
      }
    }
  }

  /** Below four times `Values[i]`, no entry is written four times in a row. */
  lemma {:induction false} NoFourFrom(num: int, i: nat)
    requires i < |Values|
    requires 0 <= num < 4 * Values[i]
    ensures NoFourInARow(Tokens(num, i))
    decreases |Values| - i, num
  {
    var r := Tokens(num, i);
    var v := Values[i];
    if num >= v {
      var rest := Tokens(num - v, i);
      assert r == [i] + rest;
      NoFourFrom(num - v, i);
      FewLeading(num - v, i, 3);
      NoFourCons(i, rest);
    } else if i + 1 < |Values| {
      NextValueRatio(i);
      NoFourFrom(num, i + 1);
    }
  }

  /** For 1..3999 no symbol is written four times in a row (entries never repeat more than three times). */
  lemma AtMostThreeRepeats(num: int)
    requires 1 <= num <= 3999
    ensures NoFourInARow(Tokens(num, 0))
  {
    NoFourFrom(num, 0);
  }

  /** Entries worth more than `num` write nothing. */
  lemma {:induction false} TokensSkip(num: int, i: nat, j: nat)
    requires i <= j <= |Values|
    requires forall l :: i <= l < j ==> num < Values[l]
    ensures Tokens(num, i) == Tokens(num, j)
    decreases j - i
  {
    if i < j {
      TokensSkip(num, i + 1, j);
    }
  }

  lemma ThreeTokens()
    ensures Tokens(3, 0) == [12, 12, 12]
  {
    TokensSkip(3, 0, 12);
    assert Tokens(0, 12) == [];
    assert Tokens(1, 12) == [12] + Tokens(0, 12);
    assert Tokens(2, 12) == [12] + Tokens(1, 12);
    assert Tokens(3, 12) == [12] + Tokens(2, 12);
  }

  lemma RomanThree()
    ensures IntToRoman(3) == "III"
  {
    ThreeTokens();
    var t: seq<nat> := [12, 12, 12];
    assert t[1..] == [12, 12] && t[2..] == [12] && t[3..] == [];
    assert Spell(t[2..]) == "I";
    assert Spell(t[1..]) == "II";
    assert Spell(t) == "III";
  }

  lemma RomanNine()
    ensures IntToRoman(9) == "IX"
  {
    TokensSkip(9, 0, 9);
    assert Tokens(0, 9) == [];
    assert Tokens(9, 9) == [9];
    assert Spell([9]) == "IX";
  }

  lemma RomanForty()
    ensures IntToRoman(40) == "XL"
  {
    TokensSkip(40, 0, 7);
    assert Tokens(0, 7) == [];
    assert Tokens(40, 7) == [7];
    assert Spell([7]) == "XL";
  }
}
