/**
 * The post-search check in `A`: every clause is rewritten with
 * `str.replace(var, value)` for each bound variable in sorted key order, and
 * the result must be a substring of `s`.
 */
module Validator {
  import opened Text
  import opened Clauses

  /** Python's `t.replace(v, w)` for a one-character pattern `v`. */
  function Replace(t: string, v: char, w: string): (r: string)
    ensures v !in w ==> v !in r
    ensures v !in t ==> r == t
    ensures r == Substitute(t, map[v := w])
  {
    if t == [] then [] else (if t[0] == v then w else [t[0]]) + Replace(t[1..], v, w)
  }

  /** The inner loop of the validator: one `replace` per key of `ks`, in order. */
  function ReplaceAll(t: string, ks: seq<char>, a: Assignment): string
    requires forall i | 0 <= i < |ks| :: ks[i] in a
    decreases |ks|
  {
    if ks == [] then t else ReplaceAll(Replace(t, ks[0], a[ks[0]]), ks[1..], a)
  }

  /** The uppercase keys of `a` from `c` up to 'Z', ascending. */
  function KeysFrom(a: Assignment, c: char): (ks: seq<char>)
    requires 'A' <= c
    ensures forall x :: x in ks <==> x in a && c <= x <= 'Z'
    ensures forall i, j | 0 <= i < j < |ks| :: ks[i] < ks[j]
    decreases 'Z' as int - c as int
  {
    if c > 'Z' then []
    else
      var rest := KeysFrom(a, (c as int + 1) as char);
      assert forall i | 0 <= i < |rest| :: c < rest[i] by {
        forall i | 0 <= i < |rest| ensures c < rest[i] {
          assert rest[i] in rest;
        }
      }
      if c in a then [c] + rest else rest
  }

  /** `sorted(a.items())`'s keys: every uppercase key, strictly ascending. */
  function SortedKeys(a: Assignment): (ks: seq<char>)
    ensures forall x :: x in ks <==> x in a && IsUpper(x)
    ensures forall i, j | 0 <= i < j < |ks| :: ks[i] < ks[j]
  {
    KeysFrom(a, 'A')
  }

  /** No value of `a` contains a key of `a`, so replacements never feed each other. */
  predicate ValuesFree(a: Assignment) {
    forall v, u | v in a && u in a :: u !in a[v]
  }

  /** Substitution restricted to the keys in `keys`. */
  function SubstituteOn(t: string, keys: set<char>, a: Assignment): string {
    if t == [] then []
    else (if t[0] in keys && t[0] in a then a[t[0]] else [t[0]]) + SubstituteOn(t[1..], keys, a)
  }

  lemma {:induction false} ReplaceConcat(t: string, u: string, v: char, w: string)
    ensures Replace(t + u, v, w) == Replace(t, v, w) + Replace(u, v, w)
  {
    if t == [] {
      assert t + u == u;
    } else {
      assert (t + u)[1..] == t[1..] + u;
      ReplaceConcat(t[1..], u, v, w);
    }
  }

  /** One more `replace` extends the set of substituted keys by one. */
  lemma {:induction false} ReplaceStep(t: string, keys: set<char>, k: char, a: Assignment)
    requires k in a && ValuesFree(a)
    ensures Replace(SubstituteOn(t, keys, a), k, a[k]) == SubstituteOn(t, keys + {k}, a)
  {
    if t != [] {
      var c := t[0];
      var head := if c in keys && c in a then a[c] else [c];
      ReplaceConcat(head, SubstituteOn(t[1..], keys, a), k, a[k]);
      ReplaceStep(t[1..], keys, k, a);
      if c in keys && c in a {
        assert k !in a[c];
      }
    }
  }

  lemma {:induction false} ReplaceAllOn(t: string, keys: set<char>, ks: seq<char>, a: Assignment)
    requires forall i | 0 <= i < |ks| :: ks[i] in a
    requires ValuesFree(a)
    ensures ReplaceAll(SubstituteOn(t, keys, a), ks, a) == SubstituteOn(t, keys + Elems(ks), a)
    decreases |ks|
  {
    if ks == [] {
      assert keys + Elems(ks) == keys;
    } else {
      ReplaceStep(t, keys, ks[0], a);
      ReplaceAllOn(t, keys + {ks[0]}, ks[1..], a);
      assert keys + {ks[0]} + Elems(ks[1..]) == keys + Elems(ks);
    }
  }

  lemma {:induction false} SubstituteOnNothing(t: string, a: Assignment)
    ensures SubstituteOn(t, {}, a) == t
  {
    if t != [] {
      SubstituteOnNothing(t[1..], a);
    }
  }

  lemma {:induction false} SubstituteOnAll(t: string, keys: set<char>, a: Assignment)
    requires a.Keys <= keys
    ensures SubstituteOn(t, keys, a) == Substitute(t, a)
  {
    if t != [] {
      SubstituteOnAll(t[1..], keys, a);
    }
  }

  /**
   * Rewriting a clause with `str.replace` key by key, in any order that
   * lists every key, gives the same text as substituting every symbol at
   * once, as long as no value contains a key. Lowercase values and
   * uppercase keys guarantee that.
   */
  lemma ReplaceAllIsSubstitute(t: string, ks: seq<char>, a: Assignment)
    requires forall i | 0 <= i < |ks| :: ks[i] in a
    requires a.Keys <= Elems(ks)
    requires ValuesFree(a)
    ensures ReplaceAll(t, ks, a) == Substitute(t, a)
  {
    SubstituteOnNothing(t, a);
    ReplaceAllOn(t, {}, ks, a);
    assert {} + Elems(ks) == Elems(ks);
    SubstituteOnAll(t, Elems(ks), a);
  }

  /** The validator's rewrite of a clause, with the keys in sorted order. */
  function Rewrite(t: string, a: Assignment): string {
    ReplaceAll(t, SortedKeys(a), a)
  }

  /** The validation loop passes: every rewritten clause is a substring of `s`. */
  predicate Validates(s: string, ts: seq<string>, a: Assignment) {
    forall k | 0 <= k < |ts| :: Occurs(s, Rewrite(ts[k], a))
  }

  /**
   * The validator agrees with per-symbol substitution for an assignment of
   * lowercase values to uppercase variables.
   */
  lemma RewriteIsSubstitute(t: string, a: Assignment)
    requires UpperKeys(a)
    requires forall v | v in a :: AllLower(a[v])
    ensures Rewrite(t, a) == Substitute(t, a)
  {
    assert ValuesFree(a);
    ReplaceAllIsSubstitute(t, SortedKeys(a), a);
  }

  /** So the validation error is unreachable for such an assignment that solves the clauses. */
  lemma ValidatesSolution(s: string, ts: seq<string>, a: Assignment)
    requires UpperKeys(a)
    requires forall v | v in a :: AllLower(a[v])
    requires forall k | 0 <= k < |ts| :: Occurs(s, Substitute(ts[k], a))
    ensures Validates(s, ts, a)
  {
    forall k | 0 <= k < |ts|
      ensures Occurs(s, Rewrite(ts[k], a))
    {
      RewriteIsSubstitute(ts[k], a);
    }
  }
}
