/** Go's `%d` rendering of an `int`, with its parser as the partner used to state round trips. */
module Decimal {
  import opened Wrappers

  predicate IsDigit(c: char) { '0' <= c <= '9' }

  function DigitChar(d: nat): (c: char)
    requires d < 10
    ensures IsDigit(c) && c as int - '0' as int == d
  {
    ('0' as int + d) as char
  }

  /** The value of a string of decimal digits, most significant first. */
  function DigitsValue(s: string): nat
    requires forall i :: 0 <= i < |s| ==> IsDigit(s[i])
  {
    if s == [] then 0
    else
      assert IsDigit(s[|s| - 1]);
      10 * DigitsValue(s[..|s| - 1]) + (s[|s| - 1] as int - '0' as int)
  }

  /** Decimal digits of `n` without leading zeros. */
  function NatDigits(n: nat): (r: string)
    ensures |r| >= 1
    ensures forall i :: 0 <= i < |r| ==> IsDigit(r[i])
    ensures r[0] == '0' ==> n == 0
    ensures |r| > 1 ==> r[0] != '0'
    ensures DigitsValue(r) == n
  {
    if n < 10 then [DigitChar(n)]
    else
      var p := NatDigits(n / 10);
      var r := p + [DigitChar(n % 10)];
      assert r[..|r| - 1] == p;
      r
  }

  /** Reads back an optional minus sign followed by at least one digit. */
  function ParseInt(s: string): Option<int>
  {
    if |s| >= 2 && s[0] == '-' && forall i :: 1 <= i < |s| ==> IsDigit(s[i]) then
      var v: int := DigitsValue(s[1..]);
      Some(-v)
    else if |s| >= 1 && forall i :: 0 <= i < |s| ==> IsDigit(s[i]) then
      Some(DigitsValue(s))
    else None
  }

  predicate AllDigits(s: string)
  {
    forall i :: 0 <= i < |s| ==> IsDigit(s[i])
  }

  /** Digits in the form `%d` writes them: at least one, and no leading zero unless the
      number is zero itself. */
  predicate PlainDigits(d: string)
  {
    |d| >= 1 && AllDigits(d) && (d[0] == '0' ==> |d| == 1)
  }

  /** The only rendering `%d` gives: plain digits, or a minus sign before plain digits of a
      non-zero magnitude (so never `-0`). */
  predicate Canonical(s: string)
  {
    PlainDigits(s) || (|s| >= 2 && s[0] == '-' && s[1] != '0' && PlainDigits(s[1..]))
  }

  /** `fmt.Sprintf("%d", n)`. */
  function FormatInt(n: int): (r: string)
    ensures |r| >= 1 && (r[0] == '-' || IsDigit(r[0]))
    ensures r[0] == '-' <==> n < 0
    ensures ParseInt(r) == Some(n)
    ensures Canonical(r)
  {
    if n < 0 then
      var d := NatDigits(-n);
      assert ("-" + d)[1..] == d;
      "-" + d
    else NatDigits(n)
  }

  /** Plain digits not starting with `0` are worth at least one. */
  lemma {:induction false} LeadingDigitPositive(d: string)
    requires |d| >= 1 && AllDigits(d) && d[0] != '0'
    ensures DigitsValue(d) >= 1
    decreases |d|
  {
    if |d| > 1 {
      var p := d[..|d| - 1];
      assert p[0] == d[0];
      LeadingDigitPositive(p);
    }
  }

  /** Two plain digit strings with the same value are the same string. */
  lemma {:induction false} PlainDigitsUnique(a: string, b: string)
    requires PlainDigits(a) && PlainDigits(b)
    requires DigitsValue(a) == DigitsValue(b)
    ensures a == b
    decreases |a|
  {
    var pa, pb := a[..|a| - 1], b[..|b| - 1];
    if |a| > 1 {
      assert pa[0] == a[0];
      LeadingDigitPositive(pa);
    }
    if |b| > 1 {
      assert pb[0] == b[0];
      LeadingDigitPositive(pb);
    }
    if |a| > 1 && |b| > 1 {
      PlainDigitsUnique(pa, pb);
      assert a == pa + [a[|a| - 1]] && b == pb + [b[|b| - 1]];
    }
  }

  /** `FormatInt(n)` is the only canonical string that reads back as `n`: the `%d` form is
      pinned down, not just some decimal spelling of the value. */
  lemma FormatIntUnique(s: string, n: int)
    requires Canonical(s) && ParseInt(s) == Some(n)
    ensures s == FormatInt(n)
  {
    var f := FormatInt(n);
    if PlainDigits(s) {
      if s[0] != '0' {
        LeadingDigitPositive(s);
      }
      PlainDigitsUnique(s, f);
    } else {
      LeadingDigitPositive(s[1..]);
      assert f[0] == '-';
      PlainDigitsUnique(s[1..], f[1..]);
      assert s == [s[0]] + s[1..] && f == [f[0]] + f[1..];
    }
  }
}
