/** `columnNumberToName` and `GetExcelCellAddress`: spreadsheet column letters are
    bijective base 26 (A = 1 .. Z = 26, no zero digit). */
module ExcelCell {
  import opened Wrappers
  import Decimal
  import Seqs

  predicate IsLetter(c: char) { 'A' <= c <= 'Z' }

  predicate AllLetters(w: string)
  {
    forall i :: 0 <= i < |w| ==> IsLetter(w[i])
  }

  function Letter(d: nat): (c: char)
    requires d < 26
    ensures IsLetter(c) && c as int - 'A' as int == d
  {
    ('A' as int + d) as char
  }

  /** Reads a column name back in bijective base 26. */
  function ColumnValue(w: string): nat
    requires AllLetters(w)
  {
    if w == [] then 0
    else 26 * ColumnValue(w[..|w| - 1]) + (w[|w| - 1] as int - 'A' as int + 1)
  }

  /** `columnNumberToName`: empty for `n <= 0`, otherwise the bijective base-26 name of `n`. */
  function ColumnNumberToName(n: int): (r: string)
    ensures n <= 0 ==> r == ""
    ensures n > 0 ==> |r| >= 1
    ensures AllLetters(r)
    ensures n > 0 ==> ColumnValue(r) == n
    decreases n
  {
    if n <= 0 then ""
    else
      var q, d := (n - 1) / 26, (n - 1) % 26;
      assert n == 26 * q + d + 1 && 0 <= d < 26 && q < n;
      var p := ColumnNumberToName(q);
      var r := p + [Letter(d)];
      assert AllLetters(r) by {
        forall i | 0 <= i < |r| ensures IsLetter(r[i]) {
          if i < |p| { assert r[i] == p[i]; }
        }
      }
      assert ColumnValue(r) == 26 * ColumnValue(p) + d + 1 by {
        assert r[..|r| - 1] == p;
      }
      assert ColumnValue(p) == q;
      r
  }

  /** Every name over A..Z is the name of its value: the representation is unique,
      so there are no redundant leading symbols. */
  lemma {:induction false} NameOfValue(w: string)
    requires AllLetters(w)
    ensures ColumnNumberToName(ColumnValue(w)) == w
    decreases |w|
  {
    if w != [] {
      var p := w[..|w| - 1];
      var c := w[|w| - 1];
      var d := c as int - 'A' as int;
      NameOfValue(p);
      var q := ColumnValue(p);
      var v := ColumnValue(w);
      assert v - 1 == q * 26 + d && 0 <= d < 26;
      Seqs.DivBetween(v - 1, 26, q);
      assert (v - 1) % 26 == d;
      NameStep(v);
      assert Letter(d) == c;
      assert w == p + [c];
    }
  }

  /** One letter off the end: the name of `n` is the name of `(n - 1) / 26` followed by the
      letter of `(n - 1) % 26`. */
  lemma NameStep(n: int)
    requires n > 0
    ensures ColumnNumberToName(n) == ColumnNumberToName((n - 1) / 26) + [Letter((n - 1) % 26)]
  {
  }

  /** Distinct column numbers get distinct names. */
  lemma NamesAreDistinct(n: int, m: int)
    requires n > 0 && m > 0 && n != m
    ensures ColumnNumberToName(n) != ColumnNumberToName(m)
  {
  }

  lemma ColumnNameExamples()
    ensures ColumnNumberToName(1) == "A"
    ensures ColumnNumberToName(26) == "Z"
    ensures ColumnNumberToName(27) == "AA"
  {
    NameOfValue("A");
    NameOfValue("Z");
    assert "AA"[..1] == "A";
    NameOfValue("AA");
  }

  lemma ThreeLetterBoundary()
    ensures ColumnNumberToName(702) == "ZZ"
    ensures ColumnNumberToName(703) == "AAA"
  {
    assert ColumnValue("Z") == 26;
    assert "ZZ"[..1] == "Z";
    assert ColumnValue("ZZ") == 702;
    NameOfValue("ZZ");
    assert ColumnValue("A") == 1;
    assert "AA"[..1] == "A";
    assert ColumnValue("AA") == 27;
    assert "AAA"[..2] == "AA";
    assert ColumnValue("AAA") == 703;
    NameOfValue("AAA");
  }

  /** The number of leading letters of `s`. */
  function LeadingLetters(s: string): (k: nat)
    ensures k <= |s| && AllLetters(s[..k]) && (k == |s| || !IsLetter(s[k]))
  {
    if s == [] || !IsLetter(s[0]) then 0
    else
      var k := 1 + LeadingLetters(s[1..]);
      assert s[..k] == [s[0]] + s[1..][..k - 1];
      k
  }

  lemma {:induction false} LeadingLettersOfName(w: string, rest: string)
    requires AllLetters(w)
    requires rest == [] || !IsLetter(rest[0])
    ensures LeadingLetters(w + rest) == |w|
    decreases |w|
  {
    if w == [] {
      assert w + rest == rest;
    } else {
      assert (w + rest)[1..] == w[1..] + rest;
      LeadingLettersOfName(w[1..], rest);
    }
  }

  /** `GetExcelCellAddress`: the column name followed by the decimal row. Splitting the
      address at its first non-letter gives back the column (0 for `column <= 0`) and the row,
      written as `%d` writes it (`Decimal.FormatIntUnique`). */
  function GetExcelCellAddress(row: int, column: int): (r: string)
    ensures var k := LeadingLetters(r);
      && ColumnValue(r[..k]) == (if column > 0 then column else 0)
      && Decimal.ParseInt(r[k..]) == Some(row)
      && Decimal.Canonical(r[k..])
  {
    var name := ColumnNumberToName(column);
    var digits := Decimal.FormatInt(row);
    var r := name + digits;
    LeadingLettersOfName(name, digits);
    assert r[..|name|] == name && r[|name|..] == digits;
    r
  }

  lemma AddressExample()
    ensures GetExcelCellAddress(1, 2) == "B1"
  {
    NameStep(2);
    assert ColumnNumberToName(0) == "";
    assert ColumnNumberToName(2) == "B";
    assert Decimal.NatDigits(1) == "1";
    assert Decimal.FormatInt(1) == "1";
  }
}
