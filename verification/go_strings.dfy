/** The few Go `strings`/`unicode` functions the utilities build on: `Join`, `ReplaceAll` of a
    single space, `Fields` and `ToLower`, over strings of Unicode scalar values (runes). */
module GoStrings {
  import opened Seqs

  /** `strings.Join`: the parts with `sep` between neighbours. */
  function Join(parts: seq<string>, sep: string): (r: string)
    ensures parts == [] ==> r == ""
    ensures parts != [] ==> |r| == |Concat(parts)| + (|parts| - 1) * |sep|
    ensures sep == "" ==> r == Concat(parts)
  {
    if parts == [] then ""
    else if |parts| == 1 then
      assert Concat(parts) == parts[0] + Concat(parts[1..]);
      parts[0]
    else
      var rest := Join(parts[1..], sep);
      assert (|parts| - 1) * |sep| == (|parts| - 2) * |sep| + |sep|;
      parts[0] + sep + rest
  }

  /** Joining is associative with prepending one more part. */
  lemma JoinCons(p: string, ps: seq<string>, sep: string)
    requires ps != []
    ensures Join([p] + ps, sep) == p + sep + Join(ps, sep)
  {
    assert ([p] + ps)[1..] == ps;
  }

  /** `unicode.IsSpace`: the Latin-1 spaces and the other White_Space runes. */
  predicate IsSpace(c: char)
  {
    || c == '\t' || c == '\n' || c == '\U{000B}' || c == '\U{000C}' || c == '\r' || c == ' '
    || c == '\U{0085}' || c == '\U{00A0}' || c == '\U{1680}'
    || ('\U{2000}' <= c <= '\U{200A}')
    || c == '\U{2028}' || c == '\U{2029}' || c == '\U{202F}' || c == '\U{205F}' || c == '\U{3000}'
  }

  predicate NoSpace(w: string)
  {
    forall i :: 0 <= i < |w| ==> !IsSpace(w[i])
  }

  /** The text with every white-space rune removed. */
  function DropSpaces(s: string): string
  {
    if s == [] then "" else (if IsSpace(s[0]) then "" else [s[0]]) + DropSpaces(s[1..])
  }

  lemma {:induction false} DropSpacesAppend(a: string, b: string)
    ensures DropSpaces(a + b) == DropSpaces(a) + DropSpaces(b)
  {
    if a != [] {
      assert (a + b)[1..] == a[1..] + b;
      DropSpacesAppend(a[1..], b);
    } else {
      assert a + b == b;
    }
  }

  lemma {:induction false} DropSpacesOfWord(w: string)
    requires NoSpace(w)
    ensures DropSpaces(w) == w
  {
    if w != [] {
      DropSpacesOfWord(w[1..]);
    }
  }

  /** The length of the longest space-free prefix. */
  function WordEnd(s: string): (n: nat)
    ensures n <= |s| && NoSpace(s[..n])
    ensures n < |s| ==> IsSpace(s[n])
  {
    if s == [] || IsSpace(s[0]) then 0
    else
      var n := 1 + WordEnd(s[1..]);
      assert forall i :: 1 <= i < n ==> s[..n][i] == s[1..][..n - 1][i - 1];
      n
  }

  /** `strings.Fields`: the maximal runs of non-space runes, in order. */
  function Fields(s: string): (r: seq<string>)
    ensures forall k :: 0 <= k < |r| ==> r[k] != "" && NoSpace(r[k])
    ensures Concat(r) == DropSpaces(s)
    decreases |s|
  {
    if s == [] then []
    else if IsSpace(s[0]) then
      assert DropSpaces(s) == DropSpaces(s[1..]);
      Fields(s[1..])
    else
      var n := WordEnd(s);
      var rest := Fields(s[n..]);
      assert s == s[..n] + s[n..];
      DropSpacesAppend(s[..n], s[n..]);
      DropSpacesOfWord(s[..n]);
      assert ([s[..n]] + rest)[1..] == rest;
      [s[..n]] + rest
  }

  /** The longest space-free prefix of a word followed by a space (or nothing) is the word. */
  lemma WordEndOf(w: string, t: string)
    requires NoSpace(w)
    requires t == [] || IsSpace(t[0])
    ensures WordEnd(w + t) == |w|
    decreases |w|
  {
    if w != [] {
      assert (w + t)[1..] == w[1..] + t;
      WordEndOf(w[1..], t);
    } else {
      assert w + t == t;
    }
  }

  /** Round trip: splitting words joined by single spaces gives the words back. */
  lemma {:induction false} FieldsOfJoin(ws: seq<string>)
    requires forall k :: 0 <= k < |ws| ==> ws[k] != "" && NoSpace(ws[k])
    ensures Fields(Join(ws, " ")) == ws
  {
    if |ws| == 1 {
      FieldsOfWordThen(ws[0], "");
      assert ws[0] + "" == ws[0];
    } else if |ws| > 1 {
      var w, j := ws[0], Join(ws[1..], " ");
      assert Join(ws, " ") == w + (" " + j);
      FieldsOfWordThen(w, " " + j);
      FieldsAfterSpaces(" ", j);
      FieldsOfJoin(ws[1..]);
      assert ws == [w] + ws[1..];
    }
  }

  predicate AllSpace(g: string)
  {
    forall i :: 0 <= i < |g| ==> IsSpace(g[i])
  }

  /** Words laid between white-space runs: `gaps[0] + ws[0] + gaps[1] + ... + ws[n-1] + gaps[n]`. */
  function Spread(ws: seq<string>, gaps: seq<string>): string
    requires |gaps| == |ws| + 1
  {
    if ws == [] then gaps[0] else gaps[0] + ws[0] + Spread(ws[1..], gaps[1..])
  }

  /** Leading white space is skipped. */
  lemma {:induction false} FieldsAfterSpaces(g: string, t: string)
    requires AllSpace(g)
    ensures Fields(g + t) == Fields(t)
  {
    if g != [] {
      assert (g + t)[0] == g[0];
      assert (g + t)[1..] == g[1..] + t;
      FieldsAfterSpaces(g[1..], t);
    } else {
      assert g + t == t;
    }
  }

  /** A word followed by white space (or by nothing) is one field. */
  lemma FieldsOfWordThen(w: string, t: string)
    requires w != "" && NoSpace(w)
    requires t == [] || IsSpace(t[0])
    ensures Fields(w + t) == [w] + Fields(t)
  {
    WordEndOf(w, t);
    assert (w + t)[..|w|] == w;
    assert (w + t)[|w|..] == t;
  }

  /** `Spread` starts with its first gap. */
  lemma SpreadStart(ws: seq<string>, gaps: seq<string>)
    requires |gaps| == |ws| + 1 && gaps[0] != ""
    ensures Spread(ws, gaps) != "" && Spread(ws, gaps)[0] == gaps[0][0]
  {
  }

  /** `Fields` cuts exactly at the white-space runs: whenever a text is non-empty, space-free
      words separated by non-empty white-space runs, with optional white space before and
      after, `Fields` returns those words. Since every text has such a decomposition, this
      determines `Fields`. */
  lemma {:induction false} FieldsOfSpread(ws: seq<string>, gaps: seq<string>)
    requires |gaps| == |ws| + 1
    requires forall k :: 0 <= k < |ws| ==> ws[k] != "" && NoSpace(ws[k])
    requires forall k :: 0 <= k < |gaps| ==> AllSpace(gaps[k])
    requires forall k :: 0 < k < |ws| ==> gaps[k] != ""
    ensures Fields(Spread(ws, gaps)) == ws
  {
    if ws == [] {
      FieldsAfterSpaces(gaps[0], "");
      assert gaps[0] + "" == gaps[0];
    } else {
      var rest := Spread(ws[1..], gaps[1..]);
      assert Spread(ws, gaps) == gaps[0] + (ws[0] + rest);
      FieldsAfterSpaces(gaps[0], ws[0] + rest);
      if |ws| > 1 {
        SpreadStart(ws[1..], gaps[1..]);
      } else {
        assert rest == gaps[1];
      }
      FieldsOfWordThen(ws[0], rest);
      FieldsOfSpread(ws[1..], gaps[1..]);
      assert ws == [ws[0]] + ws[1..];
    }
  }

  /** `strings.ReplaceAll(s, " ", rep)`: every ASCII space becomes `rep`. */
  function ReplaceSpaces(s: string, rep: string): (r: string)
    ensures ' ' !in rep ==> ' ' !in r
    ensures rep == "" ==> |r| == |s| - Count(s, ' ')
  {
    if s == [] then ""
    else (if s[0] == ' ' then rep else [s[0]]) + ReplaceSpaces(s[1..], rep)
  }

  lemma {:induction false} ReplaceSpacesAppend(a: string, b: string, rep: string)
    ensures ReplaceSpaces(a + b, rep) == ReplaceSpaces(a, rep) + ReplaceSpaces(b, rep)
  {
    if a != [] {
      assert (a + b)[1..] == a[1..] + b;
      ReplaceSpacesAppend(a[1..], b, rep);
    } else {
      assert a + b == b;
    }
  }

  /** Replacing a space by a space changes nothing. */
  lemma {:induction false} ReplaceSpaceBySpace(s: string)
    ensures ReplaceSpaces(s, " ") == s
  {
    if s != [] {
      ReplaceSpaceBySpace(s[1..]);
      assert s == [s[0]] + s[1..];
    }
  }

  /** Text without spaces is left as it is. */
  lemma {:induction false} ReplaceSpacesNone(w: string, rep: string)
    requires ' ' !in w
    ensures ReplaceSpaces(w, rep) == w
  {
    if w != [] {
      ReplaceSpacesNone(w[1..], rep);
    }
  }

  /** One separator step: a space-free word, a space, then text that rewrites to `tail`. */
  lemma ReplaceSpacesStep(w: string, j: string, rep: string, tail: string)
    requires ' ' !in w
    requires ReplaceSpaces(j, rep) == tail
    ensures ReplaceSpaces(w + (" " + j), rep) == w + rep + tail
  {
    ReplaceSpacesAppend(" ", j, rep);
    ReplaceOneSpace(rep);
    assert ReplaceSpaces(" " + j, rep) == rep + tail;
    ReplaceSpacesAppend(w, " " + j, rep);
    ReplaceSpacesNone(w, rep);
    assert w + (rep + tail) == w + rep + tail;
  }

  lemma ReplaceOneSpace(rep: string)
    ensures ReplaceSpaces(" ", rep) == rep
  {
    assert " "[1..] == "";
  }

  /** Rewriting the single-space separators of a join is the same as joining with `rep`. */
  lemma {:induction false} ReplaceSpacesOfJoin(ws: seq<string>, rep: string)
    requires forall k :: 0 <= k < |ws| ==> ' ' !in ws[k]
    ensures ReplaceSpaces(Join(ws, " "), rep) == Join(ws, rep)
  {
    if |ws| == 1 {
      ReplaceSpacesNone(ws[0], rep);
    } else if |ws| > 1 {
      var w, j, tail := ws[0], Join(ws[1..], " "), Join(ws[1..], rep);
      assert Join(ws, " ") == w + (" " + j);
      assert Join(ws, rep) == w + rep + tail;
      ReplaceSpacesOfJoin(ws[1..], rep);
      ReplaceSpacesStep(w, j, rep, tail);
    }
  }

  /** `unicode.ToLower` on the runes whose lower case is ASCII: 'A'..'Z', the dotted capital
      I (U+0130) and the Kelvin sign (U+212A). Every other rune is kept. */
  function LowerRune(c: char): char
  {
    if 'A' <= c <= 'Z' then (c as int + 32) as char
    else if c == '\U{0130}' then 'i'
    else if c == '\U{212A}' then 'k'
    else c
  }

  /** `strings.ToLower`, rune by rune. */
  function ToLower(s: string): (r: string)
    ensures |r| == |s|
    ensures forall i :: 0 <= i < |r| ==> !('A' <= r[i] <= 'Z')
    ensures forall i :: 0 <= i < |r| && 'a' <= r[i] <= 'z' ==>
      s[i] == r[i] || s[i] == (r[i] as int - 32) as char || s[i] == '\U{0130}' || s[i] == '\U{212A}'
    ensures forall i :: 0 <= i < |s| && 'A' <= s[i] <= 'Z' ==> r[i] as int == s[i] as int + 32
    ensures forall i :: 0 <= i < |s| && s[i] == '\U{0130}' ==> r[i] == 'i'
    ensures forall i :: 0 <= i < |s| && s[i] == '\U{212A}' ==> r[i] == 'k'
    ensures forall i :: 0 <= i < |s| && !('A' <= s[i] <= 'Z') && s[i] != '\U{0130}' && s[i] != '\U{212A}' ==>
      r[i] == s[i]
  {
    seq(|s|, i requires 0 <= i < |s| => LowerRune(s[i]))
  }

  /** Lower-casing twice is lower-casing once. */
  lemma LowerIdempotent(s: string)
    ensures ToLower(ToLower(s)) == ToLower(s)
  {
  }
}
