/** Generic sequence helpers: the concatenation of per-element results, which
    is how the decoders combine what each line or piece of a reply gives. */
module Lists {

  /** `f(xs[0]) + f(xs[1]) + ...`, in order. */
  function FlatMap<A, B>(f: A -> seq<B>, xs: seq<A>): seq<B>
    decreases |xs|
  {
    if xs == [] then [] else f(xs[0]) + FlatMap(f, xs[1..])
  }

  /** Mapping a concatenation maps each part, in order. */
  lemma {:induction false} FlatMapAppend<A, B>(f: A -> seq<B>, a: seq<A>, b: seq<A>)
    ensures FlatMap(f, a + b) == FlatMap(f, a) + FlatMap(f, b)
    decreases |a|
  {
    if a == [] {
      assert a + b == b;
    } else {
      assert (a + b)[0] == a[0] && (a + b)[1..] == a[1..] + b;
      FlatMapAppend(f, a[1..], b);
    }
  }

  /** Every element of the result comes from the result for some element. */
  lemma {:induction false} FlatMapMember<A, B>(f: A -> seq<B>, xs: seq<A>, y: B)
    requires y in FlatMap(f, xs)
    ensures exists i :: 0 <= i < |xs| && y in f(xs[i])
    decreases |xs|
  {
    if y !in f(xs[0]) {
      FlatMapMember(f, xs[1..], y);
      var i :| 0 <= i < |xs[1..]| && y in f(xs[1..][i]);
      assert xs[1..][i] == xs[i + 1];
    }
  }

  /** Mapping one element gives its own result. */
  lemma FlatMapSingle<A, B>(f: A -> seq<B>, x: A)
    ensures FlatMap(f, [x]) == f(x)
  {
    assert [x][1..] == [];
  }

  /** When each element maps to exactly one value, the result lists those values. */
  lemma {:induction false} FlatMapSingletons<A, B>(f: A -> seq<B>, xs: seq<A>, ys: seq<B>)
    requires |xs| == |ys|
    requires forall i :: 0 <= i < |xs| ==> f(xs[i]) == [ys[i]]
    ensures FlatMap(f, xs) == ys
    decreases |xs|
  {
    if xs != [] {
      assert f(xs[0]) == [ys[0]];
      FlatMapSingletons(f, xs[1..], ys[1..]);
      assert ys == [ys[0]] + ys[1..];
    }
  }

  /** No two positions of `xs` hold the same value. */
  predicate Distinct<T(==)>(xs: seq<T>) {
    forall i, j :: 0 <= i < j < |xs| ==> xs[i] != xs[j]
  }

  /** The de-duplicating loop: walks `xs` front to back and keeps each value
      not yet in `seen`, adding it to `seen`. */
  function DedupFrom<T(==)>(xs: seq<T>, seen: set<T>): seq<T>
    decreases |xs|
  {
    if xs == [] then []
    else if xs[0] in seen then DedupFrom(xs[1..], seen)
    else [xs[0]] + DedupFrom(xs[1..], seen + {xs[0]})
  }

  /** Order-preserving de-duplication: the first occurrence of each value. */
  function Dedup<T(==)>(xs: seq<T>): seq<T> {
    DedupFrom(xs, {})
  }

  /** The loop keeps exactly the values of `xs` not already seen, each once. */
  lemma {:induction false} DedupFromSpec<T>(xs: seq<T>, seen: set<T>)
    ensures var r := DedupFrom(xs, seen);
      && (forall x :: x in r <==> x in xs && x !in seen)
      && Distinct(r)
    decreases |xs|
  {
    if xs != [] {
      var x := xs[0];
      if x in seen {
        DedupFromSpec(xs[1..], seen);
        assert forall y :: y in xs <==> y == x || y in xs[1..];
      } else {
        var rest := DedupFrom(xs[1..], seen + {x});
        DedupFromSpec(xs[1..], seen + {x});
        assert forall y :: y in xs <==> y == x || y in xs[1..];
        var r := [x] + rest;
        forall i, j | 0 <= i < j < |r|
          ensures r[i] != r[j]
        {
          assert r[j] == rest[j - 1];
          if i > 0 {
            assert r[i] == rest[i - 1];
          } else {
            assert rest[j - 1] in rest;
          }
        }
      }
    }
  }

  /** De-duplication keeps every value once and nothing else. */
  lemma DedupSpec<T>(xs: seq<T>)
    ensures forall x :: x in Dedup(xs) <==> x in xs
    ensures Distinct(Dedup(xs))
    ensures |Dedup(xs)| <= |xs|
  {
    DedupFromSpec(xs, {});
    DedupFromShorter(xs, {});
  }

  lemma {:induction false} DedupFromShorter<T>(xs: seq<T>, seen: set<T>)
    ensures |DedupFrom(xs, seen)| <= |xs|
    decreases |xs|
  {
    if xs != [] {
      DedupFromShorter(xs[1..], seen);
      DedupFromShorter(xs[1..], seen + {xs[0]});
    }
  }

  /** Reading one more value appends it exactly when it is new: the result
      lists the values in the order of their first occurrence. */
  lemma {:induction false} DedupFromSnoc<T>(xs: seq<T>, x: T, seen: set<T>)
    ensures DedupFrom(xs + [x], seen) == DedupFrom(xs, seen) + (if x in xs || x in seen then [] else [x])
    decreases |xs|
  {
    if xs == [] {
      assert xs + [x] == [x];
      assert [x][1..] == [];
    } else {
      var y := xs[0];
      assert (xs + [x])[0] == y && (xs + [x])[1..] == xs[1..] + [x];
      assert x in xs <==> x == y || x in xs[1..];
      if y in seen {
        DedupFromSnoc(xs[1..], x, seen);
      } else {
        DedupFromSnoc(xs[1..], x, seen + {y});
      }
    }
  }

  lemma DedupSnoc<T>(xs: seq<T>, x: T)
    ensures Dedup(xs + [x]) == Dedup(xs) + (if x in xs then [] else [x])
  {
    DedupFromSnoc(xs, x, {});
  }

  /** A sequence without repeats is its own de-duplication. */
  lemma {:induction false} DedupFromDistinct<T>(xs: seq<T>, seen: set<T>)
    requires Distinct(xs)
    requires forall i :: 0 <= i < |xs| ==> xs[i] !in seen
    ensures DedupFrom(xs, seen) == xs
    decreases |xs|
  {
    if xs != [] {
      var tail := xs[1..];
      forall i | 0 <= i < |tail|
        ensures tail[i] !in seen + {xs[0]}
      {
        assert tail[i] == xs[i + 1];
      }
      assert Distinct(tail) by {
        forall i, j | 0 <= i < j < |tail|
          ensures tail[i] != tail[j]
        {
          assert tail[i] == xs[i + 1] && tail[j] == xs[j + 1];
        }
      }
      DedupFromDistinct(tail, seen + {xs[0]});
      assert xs == [xs[0]] + tail;
    }
  }

  /** De-duplicating twice is the same as once. */
  lemma DedupIdempotent<T>(xs: seq<T>)
    ensures Dedup(Dedup(xs)) == Dedup(xs)
  {
    DedupSpec(xs);
    DedupFromDistinct(Dedup(xs), {});
  }

  /** The final element, `xs[-1]` in Python. */
  function Last<T>(xs: seq<T>): T
    requires xs != []
  {
    xs[|xs| - 1]
  }

  /** The elements from the last to the first. */
  function Reverse<T>(xs: seq<T>): (r: seq<T>)
    ensures |r| == |xs|
    ensures forall i :: 0 <= i < |xs| ==> r[i] == xs[|xs| - 1 - i]
    decreases |xs|
  {
    if xs == [] then [] else Reverse(xs[1..]) + [xs[0]]
  }
}
