/** The few Python `str` operations the client code relies on, over `string`
    (`seq<char>`): `strip()`, `rstrip(ch)`, `split(sep)` with its inverse
    `join`, `startswith`, the substring test `sub in s`, and `str()` of an
    integer. Each is written from Python's documented behaviour, and the
    lemmas below pin down the facts the decoders depend on. */
module Text {
  import opened Lists

  /** Python's `str.isspace()` for a single code point: the characters that
      `strip()` with no argument removes. */
  predicate IsSpace(c: char) {
    || c == ' '
    || ('\t' <= c <= '\r')
    || ('\U{1C}' <= c <= '\U{1F}')
    || c == '\U{85}' || c == '\U{A0}' || c == '\U{1680}'
    || ('\U{2000}' <= c <= '\U{200A}')
    || c == '\U{2028}' || c == '\U{2029}' || c == '\U{202F}'
    || c == '\U{205F}' || c == '\U{3000}'
  }

  predicate AllSpace(s: string) {
    forall i :: 0 <= i < |s| ==> IsSpace(s[i])
  }

  /** `s.lstrip()`. */
  function LStrip(s: string): string {
    if s != [] && IsSpace(s[0]) then LStrip(s[1..]) else s
  }

  /** `lstrip()` keeps the longest suffix of `s` that does not start with
      whitespace: what it drops is whitespace only. */
  lemma {:induction false} LStripSpec(s: string)
    ensures var r := LStrip(s);
      && |r| <= |s| && r == s[|s| - |r|..]
      && AllSpace(s[..|s| - |r|])
      && (r == [] || !IsSpace(r[0]))
    decreases |s|
  {
    if s != [] && IsSpace(s[0]) {
      LStripSpec(s[1..]);
      var r := LStrip(s);
      assert s[..|s| - |r|] == [s[0]] + s[1..][..|s| - 1 - |r|];
    }
  }

  /** `s.rstrip()`. */
  function RStrip(s: string): string {
    if s != [] && IsSpace(s[|s| - 1]) then RStrip(s[..|s| - 1]) else s
  }

  /** `rstrip()` keeps the longest prefix of `s` that does not end with
      whitespace: what it drops is whitespace only. */
  lemma {:induction false} RStripSpec(s: string)
    ensures var r := RStrip(s);
      && |r| <= |s| && r == s[..|r|]
      && AllSpace(s[|r|..])
      && (r == [] || !IsSpace(r[|r| - 1]))
    decreases |s|
  {
    if s != [] && IsSpace(s[|s| - 1]) {
      var t := s[..|s| - 1];
      RStripSpec(t);
      var r := RStrip(s);
      assert s[|r|..] == t[|r|..] + [s[|s| - 1]];
    }
  }

  /** `s.strip()`: `s` with leading and trailing whitespace removed. */
  function Strip(s: string): string {
    LStrip(RStrip(s))
  }

  /** The stripped string is no longer than `s` and has no whitespace at
      either end. */
  lemma StripEnds(s: string)
    ensures var r := Strip(s);
      |r| <= |s| && (r == [] || (!IsSpace(r[0]) && !IsSpace(r[|r| - 1])))
  {
    var t := RStrip(s);
    RStripSpec(s);
    LStripSpec(t);
    var r := LStrip(t);
    if r != [] {
      assert r[|r| - 1] == t[|t| - 1];
    }
  }

  /** Stripping leaves a string alone exactly when it has no whitespace at either end. */
  lemma StripTrimmed(s: string)
    ensures Strip(s) == s <==> s == [] || (!IsSpace(s[0]) && !IsSpace(s[|s| - 1]))
  {
    StripEnds(s);
  }

  /** A single leading blank (the one after each `,` in a listing) is stripped away. */
  lemma StripAfterBlank(s: string)
    requires s != [] && !IsSpace(s[0]) && !IsSpace(s[|s| - 1])
    ensures Strip([' '] + s) == s
  {
    assert RStrip([' '] + s) == [' '] + s;
    assert ([' '] + s)[1..] == s;
    assert LStrip([' '] + s) == LStrip(s) == s;
  }

  /** `s.rstrip(ch)`: `s` without its trailing run of `ch`. */
  function RStripChar(s: string, ch: char): (r: string)
    ensures |r| <= |s| && r == s[..|r|]
    ensures forall i :: |r| <= i < |s| ==> s[i] == ch
    ensures r == [] || r[|r| - 1] != ch
  {
    if s != [] && s[|s| - 1] == ch then RStripChar(s[..|s| - 1], ch) else s
  }

  /** A character missing from both halves is missing from their concatenation. */
  lemma NotInConcat(c: char, a: string, b: string)
    requires c !in a && c !in b
    ensures c !in a + b
  {
    forall i | 0 <= i < |a + b|
      ensures (a + b)[i] != c
    {
      if i < |a| {
        assert (a + b)[i] == a[i];
      } else {
        assert (a + b)[i] == b[i - |a|];
      }
    }
  }

  /** `s.startswith(p)`. */
  predicate StartsWith(s: string, p: string) {
    |p| <= |s| && s[..|p|] == p
  }

  /** Python's substring test `sub in s`. */
  predicate Contains(s: string, sub: string)
    decreases |s|
  {
    StartsWith(s, sub) || (s != [] && Contains(s[1..], sub))
  }

  /** A string cannot contain a substring one of whose characters it lacks. */
  lemma {:induction false} ContainsNeedsChar(s: string, sub: string, c: char)
    requires c in sub && c !in s
    ensures !Contains(s, sub)
    decreases |s|
  {
    if s != [] {
      ContainsNeedsChar(s[1..], sub, c);
    }
  }

  // ---------------------------------------------------------------------------
  // split / join

  /** `s.split(sep)` for a one-character separator: the pieces between the
      occurrences of `sep`. Like Python it never returns an empty list, and an
      empty string splits into one empty piece. */
  function Split(s: string, sep: char): (r: seq<string>)
    ensures |r| >= 1
    ensures forall i :: 0 <= i < |r| ==> sep !in r[i]
    decreases |s|
  {
    if s == [] then [[]]
    else
      var rest := Split(s[1..], sep);
      if s[0] == sep then [[]] + rest else [[s[0]] + rest[0]] + rest[1..]
  }

  /** `sep.join(xs)`. */
  function Join(xs: seq<string>, sep: string): string
    decreases |xs|
  {
    if |xs| == 0 then []
    else if |xs| == 1 then xs[0]
    else xs[0] + sep + Join(xs[1..], sep)
  }

  /** A string without the separator is a single piece. */
  lemma {:induction false} SplitWithoutSep(s: string, sep: char)
    requires sep !in s
    ensures Split(s, sep) == [s]
    decreases |s|
  {
    if s != [] {
      SplitWithoutSep(s[1..], sep);
      assert [s[0]] + s[1..] == s;
    }
  }

  /** A separator-free prefix is glued onto the first piece of what follows it. */
  lemma {:induction false} SplitAfterPrefix(a: string, t: string, sep: char)
    requires sep !in a
    ensures Split(a + t, sep) == [a + Split(t, sep)[0]] + Split(t, sep)[1..]
    decreases |a|
  {
    if a == [] {
      assert a + t == t;
      assert a + Split(t, sep)[0] == Split(t, sep)[0];
      assert Split(t, sep) == [Split(t, sep)[0]] + Split(t, sep)[1..];
    } else {
      assert (a + t)[1..] == a[1..] + t;
      SplitAfterPrefix(a[1..], t, sep);
      assert [a[0]] + (a[1..] + Split(t, sep)[0]) == a + Split(t, sep)[0];
    }
  }

  /** Splitting a string that starts with the separator yields an empty first piece. */
  lemma SplitAtSep(t: string, sep: char)
    ensures Split([sep] + t, sep) == [[]] + Split(t, sep)
  {
    assert ([sep] + t)[1..] == t;
  }

  /** Splitting at a `", "` that follows a comma-free prefix: the prefix is one
      piece and the next piece keeps the blank. */
  lemma SplitAfterComma(a: string, rest: string)
    requires ',' !in a
    ensures var q := Split(rest, ',');
      Split(a + ", " + rest, ',') == [a] + ([[' '] + q[0]] + q[1..])
  {
    assert a + ", " + rest == a + ([','] + ([' '] + rest));
    SplitAfterPrefix(a, [','] + ([' '] + rest), ',');
    SplitAtSep([' '] + rest, ',');
    SplitAfterPrefix([' '], rest, ',');
    assert a + [] == a;
  }

  /** Splitting a join of separator-free pieces gives the pieces back. */
  lemma {:induction false} JoinThenSplit(xs: seq<string>, sep: char)
    requires |xs| >= 1
    requires forall i :: 0 <= i < |xs| ==> sep !in xs[i]
    ensures Split(Join(xs, [sep]), sep) == xs
    decreases |xs|
  {
    if |xs| == 1 {
      SplitWithoutSep(xs[0], sep);
    } else {
      var j := Join(xs[1..], [sep]);
      JoinThenSplit(xs[1..], sep);
      assert Join(xs, [sep]) == xs[0] + ([sep] + j);
      SplitAfterPrefix(xs[0], [sep] + j, sep);
      SplitAtSep(j, sep);
      assert xs[0] + [] == xs[0];
      assert [xs[0]] + xs[1..] == xs;
    }
  }

  /** The text after the last `c` of `s` (all of `s` when there is none),
      defined from the right-hand end. */
  function AfterLast(s: string, c: char): (r: string)
    ensures |r| <= |s| && r == s[|s| - |r|..]
    ensures c !in r
    ensures |r| == |s| || s[|s| - |r| - 1] == c
    decreases |s|
  {
    if s == [] then []
    else if s[|s| - 1] == c then []
    else AfterLast(s[..|s| - 1], c) + [s[|s| - 1]]
  }

  /** The text after the last `c` of `a + [c] + t` is `t` when `t` holds no `c`. */
  lemma {:induction false} AfterLastAt(a: string, c: char, t: string)
    requires c !in t
    ensures AfterLast(a + [c] + t, c) == t
    decreases |t|
  {
    var s := a + [c] + t;
    if t != [] {
      var u := t[..|t| - 1];
      assert s[..|s| - 1] == a + [c] + u;
      AfterLastAt(a, c, u);
      assert t == u + [t[|t| - 1]];
    }
  }

  /** One more separator at the end of the input adds one empty piece. */
  lemma {:induction false} SplitSnocSep(t: string, sep: char)
    ensures Split(t + [sep], sep) == Split(t, sep) + [[]]
    decreases |t|
  {
    if t == [] {
      assert [] + [sep] == [sep];
      assert [sep][1..] == [];
    } else {
      var u := t[1..];
      assert (t + [sep])[1..] == u + [sep];
      SplitSnocSep(u, sep);
      var r := Split(u, sep);
      if t[0] != sep {
        assert (r + [[]])[0] == r[0];
        assert (r + [[]])[1..] == r[1..] + [[]];
      }
    }
  }

  /** One more ordinary character at the end of the input extends the last piece. */
  lemma SplitOneOther(x: char, sep: char)
    requires x != sep
    ensures Split([] + [x], sep) == Split([], sep)[..|Split([], sep)| - 1] + [Last(Split([], sep)) + [x]]
  {
    assert [] + [x] == [x];
    assert [x][1..] == [];
    assert Split([x], sep) == [[x] + []];
    assert Split([], sep) == [[]];
    assert [x] + [] == [x];
  }

  lemma {:induction false} SplitSnocOther(t: string, x: char, sep: char)
    requires x != sep
    ensures Split(t + [x], sep) == Split(t, sep)[..|Split(t, sep)| - 1] + [Last(Split(t, sep)) + [x]]
    decreases |t|
  {
    if t == [] {
      SplitOneOther(x, sep);
    } else {
      var u := t[1..];
      assert (t + [x])[1..] == u + [x];
      SplitSnocOther(u, x, sep);
      var r := Split(u, sep);
      if t[0] == sep {
        SnocLastPiece([], r, x);
      } else {
        SnocFirstPiece(t[0], r, x);
      }
    }
  }

  /** Appending to the last piece commutes with prepending a piece. */
  lemma SnocLastPiece(p: string, r: seq<string>, x: char)
    requires r != []
    ensures [p] + (r[..|r| - 1] + [Last(r) + [x]]) == ([p] + r)[..|r|] + [Last([p] + r) + [x]]
  {
    assert ([p] + r)[..|r|] == [p] + r[..|r| - 1];
  }

  /** Appending to the last piece commutes with extending the first piece. */
  lemma SnocFirstPiece(c: char, r: seq<string>, x: char)
    requires r != []
    ensures var r' := r[..|r| - 1] + [Last(r) + [x]];
      var st := [[c] + r[0]] + r[1..];
      [[c] + r'[0]] + r'[1..] == st[..|st| - 1] + [Last(st) + [x]]
  {
    var r' := r[..|r| - 1] + [Last(r) + [x]];
    var st := [[c] + r[0]] + r[1..];
    if |r| == 1 {
      assert r' == [r[0] + [x]];
      assert [c] + r'[0] == [c] + r[0] + [x];
    } else {
      assert r'[0] == r[0];
      assert r'[1..] == r[1..|r| - 1] + [Last(r) + [x]];
      assert st[..|st| - 1] == [[c] + r[0]] + r[1..|r| - 1];
    }
  }

  /** The last piece of `s.split(c)` — Python's `s.split(c)[-1]` — is the
      text after the last `c`. */
  lemma {:induction false} SplitLastPiece(s: string, c: char)
    ensures Last(Split(s, c)) == AfterLast(s, c)
    decreases |s|
  {
    if s != [] {
      var t := s[..|s| - 1];
      assert s == t + [s[|s| - 1]];
      if s[|s| - 1] == c {
        SplitSnocSep(t, c);
      } else {
        SplitSnocOther(t, s[|s| - 1], c);
      }
      SplitLastPiece(t, c);
    }
  }

  /** The position of the first `c` in `s`. */
  function IndexOf(s: string, c: char): (i: nat)
    requires c in s
    ensures i < |s| && s[i] == c && c !in s[..i]
  {
    if s[0] == c then 0 else 1 + IndexOf(s[1..], c)
  }

  /** Python's `s.split(c, 1)[-1]`: the text after the first `c`, or all of `s`
      when `c` does not occur. */
  function AfterFirst(s: string, c: char): (r: string)
    ensures c !in s ==> r == s
    ensures c in s ==> exists i :: 0 <= i < |s| && s[i] == c && c !in s[..i] && r == s[i + 1..]
  {
    if c in s then s[IndexOf(s, c) + 1..] else s
  }

  // ---------------------------------------------------------------------------
  // str() of integers

  predicate IsDigit(c: char) {
    '0' <= c <= '9'
  }

  predicate IsDigits(s: string) {
    s != [] && forall i :: 0 <= i < |s| ==> IsDigit(s[i])
  }

  function DigitChar(d: nat): (c: char)
    requires d < 10
    ensures IsDigit(c) && c as int - '0' as int == d
  {
    ('0' as int + d) as char
  }

  /** Python's `str(n)` for a natural number: its decimal digits, no leading zero. */
  function NatToString(n: nat): (r: string)
    ensures IsDigits(r)
    ensures r[0] == '0' ==> r == "0"
    ensures n > 0 ==> r[0] != '0'
    decreases n
  {
    if n < 10 then [DigitChar(n)] else NatToString(n / 10) + [DigitChar(n % 10)]
  }

  /** The value of a string of decimal digits (the reference reading of `NatToString`). */
  function DigitsValue(s: string): nat
    requires forall i :: 0 <= i < |s| ==> IsDigit(s[i])
    decreases |s|
  {
    if s == [] then 0
    else
      assert IsDigit(s[|s| - 1]);
      10 * DigitsValue(s[..|s| - 1]) + (s[|s| - 1] as int - '0' as int)
  }

  /** Reading back the digits `str(n)` writes gives `n`. */
  lemma {:induction false} NatToStringValue(n: nat)
    ensures DigitsValue(NatToString(n)) == n
    decreases n
  {
    if n >= 10 {
      NatToStringValue(n / 10);
      var r := NatToString(n);
      assert r[..|r| - 1] == NatToString(n / 10);
    }
  }

  /** Python's `str(i)` for any integer. */
  function IntToString(i: int): (r: string)
    ensures r != []
    ensures i < 0 <==> r[0] == '-'
    ensures i >= 0 ==> IsDigits(r)
    ensures i >= 0 ==> DigitsValue(r) == i
    ensures i < 0 ==> IsDigits(r[1..]) && DigitsValue(r[1..]) == -i
    ensures i >= 0 && r[0] == '0' ==> r == "0"
    ensures i < 0 ==> |r| >= 2 && r[1] != '0'
  {
    NatToStringValue(if i < 0 then -i else i);
    if i < 0 then "-" + NatToString(-i) else NatToString(i)
  }
}
