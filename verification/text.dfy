/**
 * Character classes and the string primitives the solver relies on:
 * substring tests, Python's `str.find` / the `findall` generator built on it,
 * and Python's `str.split` with an explicit separator.
 */
module Text {

  predicate IsLower(c: char) { 'a' <= c <= 'z' }

  predicate IsUpper(c: char) { 'A' <= c <= 'Z' }

  predicate IsLetter(c: char) { IsLower(c) || IsUpper(c) }

  /** Every character is a lowercase ASCII letter (vacuously true of ""). */
  predicate AllLower(w: string) {
    forall i | 0 <= i < |w| :: IsLower(w[i])
  }

  /** Python's `str.isupper` on ASCII text: some uppercase letter and no lowercase one. */
  predicate IsUpperWord(w: string) {
    && (exists i | 0 <= i < |w| :: IsUpper(w[i]))
    && (forall i | 0 <= i < |w| :: !IsLower(w[i]))
  }

  /** The elements of a sequence, as a set. */
  function Elems<T>(xs: seq<T>): set<T> {
    set x | x in xs
  }

  /** Only the empty sequence has no elements. */
  lemma ElemsEmpty<T>(xs: seq<T>)
    ensures Elems(xs) == {} <==> xs == []
  {
    if xs != [] {
      assert xs[0] in Elems(xs);
    }
  }

  /** `x` occurs in `s` starting at offset `i`. */
  predicate OccursAt(s: string, x: string, i: int) {
    0 <= i && i + |x| <= |s| && s[i..i + |x|] == x
  }

  /** Python's `x in s` for strings. */
  predicate Occurs(s: string, x: string) {
    exists i | 0 <= i <= |s| - |x| :: OccursAt(s, x, i)
  }

  /** A one-character string occurs exactly when the character does. */
  lemma OccursChar(s: string, c: char)
    ensures Occurs(s, [c]) <==> c in s
  {
    if c in s {
      var i :| 0 <= i < |s| && s[i] == c;
      assert OccursAt(s, [c], i);
    }
    if Occurs(s, [c]) {
      var i :| 0 <= i <= |s| - 1 && OccursAt(s, [c], i);
      assert s[i] == s[i..i + 1][0];
    }
  }

  /** Python's `s[pos:].startswith(x)` for a non-negative `pos` (the slice is empty past the end). */
  predicate StartsWithAt(s: string, pos: nat, x: string) {
    var rest := if pos <= |s| then s[pos..] else [];
    |x| <= |rest| && rest[..|x|] == x
  }

  lemma StartsWithAtIsOccursAt(s: string, pos: nat, x: string)
    requires pos <= |s|
    ensures StartsWithAt(s, pos, x) <==> OccursAt(s, x, pos)
  {
    if StartsWithAt(s, pos, x) {
      assert s[pos..][..|x|] == s[pos..pos + |x|];
    }
    if OccursAt(s, x, pos) {
      assert s[pos..][..|x|] == s[pos..pos + |x|];
    }
  }

  /** An occurrence of `x + y` is an occurrence of `x` followed by one of `y`. */
  lemma OccursAtConcat(s: string, x: string, y: string, i: int)
    ensures OccursAt(s, x + y, i) <==> OccursAt(s, x, i) && OccursAt(s, y, i + |x|)
  {
    if OccursAt(s, x + y, i) {
      assert s[i..i + |x|] == (x + y)[..|x|];
      assert s[i + |x|..i + |x| + |y|] == (x + y)[|x|..];
    }
    if OccursAt(s, x, i) && OccursAt(s, y, i + |x|) {
      assert s[i..i + |x| + |y|] == s[i..i + |x|] + s[i + |x|..i + |x| + |y|];
    }
  }

  /** Anything that occurs inside an occurring string occurs in `s`. */
  lemma OccursTransitive(s: string, x: string, y: string, i: int, j: int)
    requires OccursAt(s, x, i) && OccursAt(x, y, j)
    ensures OccursAt(s, y, i + j) && Occurs(s, y)
  {
    forall k | 0 <= k < |y|
      ensures s[i + j..i + j + |y|][k] == y[k]
    {
      assert y[k] == x[j + k] == s[i + j + k];
    }
    assert s[i + j..i + j + |y|] == y;
    assert OccursAt(s, y, i + j);
  }

  /**
   * Python's `s.find(x, from)`: the least offset `i >= from` at which `x`
   * occurs, or -1 when there is none.
   */
  function Find(s: string, x: string, from: nat): (r: int)
    ensures r == -1 || (from <= r && OccursAt(s, x, r))
    ensures forall i | from <= i && (r == -1 || i < r) :: !OccursAt(s, x, i)
    decreases |s| + 1 - from
  {
    if from + |x| > |s| then -1
    else if s[from..from + |x|] == x then from
    else Find(s, x, from + 1)
  }

  /**
   * The `findall` generator: every offset `>= from` where `x` occurs in `s`,
   * overlapping matches included, left to right.
   */
  function FindAll(s: string, x: string, from: nat): (r: seq<int>)
    ensures forall i :: i in r <==> from <= i && OccursAt(s, x, i)
    ensures forall k | 0 <= k < |r| :: from <= r[k] && OccursAt(s, x, r[k])
    ensures forall a, b | 0 <= a < b < |r| :: r[a] < r[b]
    decreases |s| + 1 - from
  {
    var i := Find(s, x, from);
    if i < 0 then [] else [i] + FindAll(s, x, i + 1)
  }

  /** The number of times `d` appears in `s`. */
  function Count(s: string, d: char): nat {
    if s == [] then 0 else (if s[0] == d then 1 else 0) + Count(s[1..], d)
  }

  /** The inverse of `Split`: the parts glued together with `d` between them. */
  function Join(parts: seq<string>, d: char): string {
    if |parts| == 0 then []
    else if |parts| == 1 then parts[0]
    else parts[0] + [d] + Join(parts[1..], d)
  }

  /** Python's `s.split(d)`: the maximal `d`-free pieces between separators, empty ones included. */
  function Split(s: string, d: char): (parts: seq<string>)
    ensures |parts| == Count(s, d) + 1
    ensures forall k | 0 <= k < |parts| :: d !in parts[k]
    ensures Join(parts, d) == s
  {
    if s == [] then [[]]
    else
      var rest := Split(s[1..], d);
      if s[0] == d then [[]] + rest
      else
        assert s == [s[0]] + s[1..];
        [[s[0]] + rest[0]] + rest[1..]
  }

  /** Splitting undoes joining when no part contains the separator. */
  lemma {:induction false} SplitJoin(parts: seq<string>, d: char)
    requires |parts| >= 1
    requires forall k | 0 <= k < |parts| :: d !in parts[k]
    ensures Split(Join(parts, d), d) == parts
    decreases |parts|, |parts[0]|
  {
    if |parts| == 1 {
      SplitFree(parts[0], d);
    } else if parts[0] == [] {
      SplitJoin(parts[1..], d);
      assert Join(parts, d) == [d] + Join(parts[1..], d);
      assert Join(parts, d)[1..] == Join(parts[1..], d);
    } else {
      var p := parts[0];
      var shorter := [p[1..]] + parts[1..];
      SplitJoin(shorter, d);
      assert Join(shorter, d) == p[1..] + [d] + Join(parts[1..], d);
      assert Join(parts, d) == [p[0]] + Join(shorter, d);
      assert Join(parts, d)[1..] == Join(shorter, d);
      assert [p[0]] + p[1..] == p;
    }
  }

  /** A string without the separator splits into itself. */
  lemma {:induction false} SplitFree(s: string, d: char)
    requires d !in s
    ensures Split(s, d) == [s]
  {
    if s != [] {
      SplitFree(s[1..], d);
      assert [s[0]] + s[1..] == s;
    }
  }
}
