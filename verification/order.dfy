/**
 * The clause order the parser settles on: `sorted(set(ts), key=lambda c: (-len(c), c))`,
 * longest clauses first and equal lengths in Python's string order.
 */
module ClauseOrder {
  import opened Text

  /** Python's `a < b` on strings: code-point order, a proper prefix first. */
  predicate LexLess(a: string, b: string)
    decreases |a|
  {
    |b| > 0 && (|a| == 0 || a[0] < b[0] || (a[0] == b[0] && LexLess(a[1..], b[1..])))
  }

  /** Comparison of the sort keys `(-len(a), a) < (-len(b), b)`. */
  predicate Before(a: string, b: string) {
    |a| > |b| || (|a| == |b| && LexLess(a, b))
  }

  lemma {:induction false} LexIrreflexive(a: string)
    ensures !LexLess(a, a)
    decreases |a|
  {
    if |a| > 0 {
      LexIrreflexive(a[1..]);
    }
  }

  lemma {:induction false} LexTransitive(a: string, b: string, c: string)
    requires LexLess(a, b) && LexLess(b, c)
    ensures LexLess(a, c)
    decreases |a|
  {
    if |a| > 0 && a[0] == b[0] && b[0] == c[0] {
      LexTransitive(a[1..], b[1..], c[1..]);
    }
  }

  lemma {:induction false} LexTotal(a: string, b: string)
    ensures a == b || LexLess(a, b) || LexLess(b, a)
    decreases |a|
  {
    if |a| > 0 && |b| > 0 && a[0] == b[0] {
      LexTotal(a[1..], b[1..]);
      if a[1..] == b[1..] {
        assert a == [a[0]] + a[1..] && b == [b[0]] + b[1..];
      }
    }
  }

  lemma LexAsymmetric(a: string, b: string)
    requires LexLess(a, b)
    ensures !LexLess(b, a)
  {
    if LexLess(b, a) {
      LexTransitive(a, b, a);
      LexIrreflexive(a);
    }
  }

  /** The sort key is a strict total order on strings, so the sorted order of a set is unique. */
  lemma BeforeIsStrictTotal(a: string, b: string, c: string)
    ensures !Before(a, a)
    ensures Before(a, b) ==> !Before(b, a)
    ensures Before(a, b) && Before(b, c) ==> Before(a, c)
    ensures a == b || Before(a, b) || Before(b, a)
  {
    LexIrreflexive(a);
    if Before(a, b) && |a| == |b| {
      LexAsymmetric(a, b);
    }
    if Before(a, b) && Before(b, c) && |a| == |b| == |c| {
      LexTransitive(a, b, c);
    }
    LexTotal(a, b);
  }

  /** Strictly ascending by the sort key: sorted and free of duplicates. */
  predicate Sorted(xs: seq<string>) {
    forall i, j | 0 <= i < j < |xs| :: Before(xs[i], xs[j])
  }

  lemma SortedDistinct(xs: seq<string>)
    requires Sorted(xs)
    ensures forall i, j | 0 <= i < j < |xs| :: xs[i] != xs[j]
  {
    forall i, j | 0 <= i < j < |xs|
      ensures xs[i] != xs[j]
    {
      BeforeIsStrictTotal(xs[i], xs[j], xs[j]);
    }
  }

  /** Put `x` into the sorted `xs` unless it is already there. */
  function Insert(x: string, xs: seq<string>): (r: seq<string>)
    requires Sorted(xs)
    ensures Sorted(r)
    ensures Elems(r) == {x} + Elems(xs)
  {
    if xs == [] then [x]
    else if x == xs[0] then xs
    else if Before(x, xs[0]) then
      assert Sorted([x] + xs) by {
        forall j | 0 < j < |xs| ensures Before(x, xs[j]) {
          BeforeIsStrictTotal(x, xs[0], xs[j]);
        }
      }
      assert xs == [xs[0]] + xs[1..];
      [x] + xs
    else
      var rest := Insert(x, xs[1..]);
      BeforeIsStrictTotal(x, xs[0], x);
      assert Sorted([xs[0]] + rest) by {
        forall j | 0 <= j < |rest| ensures Before(xs[0], rest[j]) {
          assert rest[j] in Elems(rest);
        }
      }
      assert xs == [xs[0]] + xs[1..];
      assert Elems([xs[0]] + rest) == {xs[0]} + Elems(rest);
      [xs[0]] + rest
  }

  /** `sorted(set(ts), key=...)`: each clause once, in sort-key order (parser.py:67). */
  function Dedup(ts: seq<string>): (r: seq<string>)
    ensures Sorted(r)
    ensures Elems(r) == Elems(ts)
  {
    if ts == [] then []
    else
      assert ts == [ts[0]] + ts[1..];
      Insert(ts[0], Dedup(ts[1..]))
  }

  /** Two sorted lists with the same elements are the same list. */
  lemma {:induction false} SortedUnique(xs: seq<string>, ys: seq<string>)
    requires Sorted(xs) && Sorted(ys) && Elems(xs) == Elems(ys)
    ensures xs == ys
    decreases |xs|
  {
    ElemsEmpty(xs);
    ElemsEmpty(ys);
    if xs != [] && ys != [] {
      if xs[0] != ys[0] {
        assert xs[0] in Elems(ys) && ys[0] in Elems(xs);
        var i :| 0 <= i < |ys| && ys[i] == xs[0];
        var j :| 0 <= j < |xs| && xs[j] == ys[0];
        BeforeIsStrictTotal(xs[0], ys[0], xs[0]);
        assert false;
      }
      SortedDistinct(xs);
      SortedDistinct(ys);
      assert xs == [xs[0]] + xs[1..] && ys == [ys[0]] + ys[1..];
      assert Elems(xs[1..]) == Elems(xs) - {xs[0]} by {
        assert forall k | 0 < k < |xs| :: xs[k] != xs[0];
      }
      assert Elems(ys[1..]) == Elems(ys) - {ys[0]} by {
        assert forall k | 0 < k < |ys| :: ys[k] != ys[0];
      }
      SortedUnique(xs[1..], ys[1..]);
    }
  }

  /** The deduplicated list depends only on which clauses were given, not on their order or repetitions. */
  lemma DedupBySet(ts: seq<string>, us: seq<string>)
    requires Elems(ts) == Elems(us)
    ensures Dedup(ts) == Dedup(us)
  {
    SortedUnique(Dedup(ts), Dedup(us));
  }

  /** Deduplicating a deduplicated list changes nothing. */
  lemma DedupIdempotent(ts: seq<string>)
    ensures Dedup(Dedup(ts)) == Dedup(ts)
  {
    SortedUnique(Dedup(Dedup(ts)), Dedup(ts));
  }

  /** A list without duplicates has as many elements as its set. */
  lemma {:induction false} DistinctCard(xs: seq<string>)
    requires forall i, j | 0 <= i < j < |xs| :: xs[i] != xs[j]
    ensures |Elems(xs)| == |xs|
  {
    if xs != [] {
      DistinctCard(xs[1..]);
      assert xs == [xs[0]] + xs[1..];
      assert Elems(xs) == {xs[0]} + Elems(xs[1..]);
      assert xs[0] !in Elems(xs[1..]);
    }
  }

  /** No clause is kept twice: the list is exactly as long as the set of input clauses. */
  lemma DedupCount(ts: seq<string>)
    ensures |Dedup(ts)| == |Elems(ts)|
    ensures forall i, j | 0 <= i < j < |Dedup(ts)| :: Dedup(ts)[i] != Dedup(ts)[j]
  {
    SortedDistinct(Dedup(ts));
    DistinctCard(Dedup(ts));
  }
}
