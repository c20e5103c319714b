/** Python's ordering of `str` values (code point by code point, a proper
    prefix first) and `sorted(...)` of a set of strings. The client sorts the
    joined and left ids of each change with it, and the model uses the same
    order to enumerate a Python set, whose own iteration order is unspecified. */
module StringOrder {

  /** Python's `a < b` on strings. */
  predicate Below(a: string, b: string)
    decreases |a|
  {
    if a == [] then b != []
    else b != [] && (a[0] < b[0] || (a[0] == b[0] && Below(a[1..], b[1..])))
  }

  lemma {:induction false} BelowIrreflexive(a: string)
    ensures !Below(a, a)
    decreases |a|
  {
    if a != [] {
      BelowIrreflexive(a[1..]);
    }
  }

  lemma {:induction false} BelowTransitive(a: string, b: string, c: string)
    requires Below(a, b) && Below(b, c)
    ensures Below(a, c)
    decreases |a|
  {
    if a != [] && a[0] == b[0] && b[0] == c[0] {
      BelowTransitive(a[1..], b[1..], c[1..]);
    }
  }

  /** Any two distinct strings are ordered one way or the other. */
  lemma {:induction false} BelowTotal(a: string, b: string)
    ensures a == b || Below(a, b) || Below(b, a)
    decreases |a|
  {
    if a != [] && b != [] && a[0] == b[0] {
      BelowTotal(a[1..], b[1..]);
      if a[1..] == b[1..] {
        assert a == [a[0]] + a[1..] && b == [b[0]] + b[1..];
      }
    }
  }

  lemma BelowAsymmetric(a: string, b: string)
    requires Below(a, b)
    ensures !Below(b, a)
  {
    if Below(b, a) {
      BelowTransitive(a, b, a);
      BelowIrreflexive(a);
    }
  }

  /** `xs` is in strictly ascending order, hence without duplicates. */
  predicate StrictlySorted(xs: seq<string>) {
    forall i, j :: 0 <= i < j < |xs| ==> Below(xs[i], xs[j])
  }

  /** `m` is the least element of `s`. */
  predicate IsLeast(m: string, s: set<string>) {
    m in s && forall y :: y in s ==> y == m || Below(m, y)
  }

  lemma {:induction false} LeastExists(s: set<string>)
    requires s != {}
    ensures exists m :: IsLeast(m, s)
    decreases |s|
  {
    var x :| x in s;
    if s != {x} {
      var rest := s - {x};
      LeastExists(rest);
      var m :| IsLeast(m, rest);
      BelowTotal(x, m);
      if Below(x, m) {
        forall y | y in s
          ensures y == x || Below(x, y)
        {
          if y != x && y != m {
            BelowTransitive(x, m, y);
          }
        }
        assert IsLeast(x, s);
      } else {
        assert IsLeast(m, s);
      }
    } else {
      assert IsLeast(x, s);
    }
  }

  lemma LeastUnique(s: set<string>)
    ensures forall m, m' :: IsLeast(m, s) && IsLeast(m', s) ==> m == m'
  {
    forall m, m' | IsLeast(m, s) && IsLeast(m', s)
      ensures m == m'
    {
      if m != m' {
        BelowAsymmetric(m, m');
      }
    }
  }

  lemma LeastBelowOthers(m: string, s: set<string>, rest: seq<string>)
    requires IsLeast(m, s)
    requires forall x :: x in rest <==> x in s - {m}
    ensures forall j :: 0 <= j < |rest| ==> Below(m, rest[j])
  {
    forall j | 0 <= j < |rest|
      ensures Below(m, rest[j])
    {
      assert rest[j] in rest;
    }
  }

  /** Python's `sorted(s)` for a set of strings: its elements in ascending order. */
  function Sorted(s: set<string>): (r: seq<string>)
    ensures StrictlySorted(r)
    ensures forall x :: x in r <==> x in s
    ensures |r| == |s|
    decreases |s|
  {
    if s == {} then []
    else
      LeastExists(s);
      LeastUnique(s);
      var m :| IsLeast(m, s);
      var rest := Sorted(s - {m});
      LeastBelowOthers(m, s, rest);
      [m] + rest
  }

  /** A strictly ascending sequence is determined by its elements: it is the
      sorted listing of its own set. */
  lemma {:induction false} SortedUnique(xs: seq<string>, s: set<string>)
    requires StrictlySorted(xs)
    requires forall x :: x in xs <==> x in s
    ensures xs == Sorted(s)
    decreases |xs|
  {
    var r := Sorted(s);
    if xs == [] {
      assert s == {};
    } else {
      assert xs[0] in xs;
      assert r != [];
      assert xs[0] == r[0] by {
        if xs[0] != r[0] {
          assert xs[0] in xs && r[0] in r;
          var i :| 0 <= i < |r| && r[i] == xs[0];
          var j :| 0 <= j < |xs| && xs[j] == r[0];
          assert i > 0 && j > 0;
          assert Below(r[0], r[i]) && Below(xs[0], xs[j]);
          BelowAsymmetric(r[0], xs[0]);
        }
      }
      LeastUnique(s);
      var m := xs[0];
      forall x | x in xs[1..]
        ensures x in s - {m}
      {
        BelowIrreflexive(m);
      }
      SortedUnique(xs[1..], s - {m});
      assert xs == [m] + xs[1..];
    }
  }
}
