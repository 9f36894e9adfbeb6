/**
 * The shared data model: a master string, clause templates mixing lowercase
 * literals with uppercase variables, candidate domains, and assignments.
 */
module Clauses {
  import opened Wrappers
  import opened Text

  /** Variable -> its candidate strings (the parsed `rs` dictionary of sets). */
  type Domains = map<char, set<string>>

  /** Variable -> chosen candidate (`chosen_replacements`). */
  type Assignment = map<char, string>

  /** The uppercase variables of one clause. */
  function Vars(t: string): set<char> {
    set i | 0 <= i < |t| && IsUpper(t[i]) :: t[i]
  }

  /** The variables referenced by any clause: `filter(str.isupper, "".join(ts))`. */
  function ClauseVars(ts: seq<string>): set<char> {
    if ts == [] then {} else Vars(ts[0]) + ClauseVars(ts[1..])
  }

  lemma {:induction false} ClauseVarsMember(ts: seq<string>, c: char)
    ensures c in ClauseVars(ts) <==> exists k | 0 <= k < |ts| :: c in Vars(ts[k])
  {
    if ts != [] {
      ClauseVarsMember(ts[1..], c);
      if c in ClauseVars(ts[1..]) {
        var k :| 0 <= k < |ts[1..]| && c in Vars(ts[1..][k]);
        assert ts[1..][k] == ts[k + 1];
      }
      if exists k | 0 <= k < |ts| :: c in Vars(ts[k]) {
        var k :| 0 <= k < |ts| && c in Vars(ts[k]);
        if k > 0 {
          assert ts[1..][k - 1] == ts[k];
        }
      }
    }
  }

  /** Clause variables depend only on which clauses there are, not on order or repetition. */
  lemma ClauseVarsByElems(ts: seq<string>, us: seq<string>)
    requires Elems(ts) == Elems(us)
    ensures ClauseVars(ts) == ClauseVars(us)
  {
    forall c | c in ClauseVars(ts)
      ensures c in ClauseVars(us)
    {
      ClauseVarsMember(ts, c);
      ClauseVarsMember(us, c);
      var k :| 0 <= k < |ts| && c in Vars(ts[k]);
      assert ts[k] in Elems(us);
    }
    forall c | c in ClauseVars(us)
      ensures c in ClauseVars(ts)
    {
      ClauseVarsMember(ts, c);
      ClauseVarsMember(us, c);
      var k :| 0 <= k < |us| && c in Vars(us[k]);
      assert us[k] in Elems(ts);
    }
  }

  /** The first uppercase character of `t`, if any. */
  function FirstUpper(t: string): (r: Option<char>)
    ensures r.None? <==> Vars(t) == {}
    ensures r.Some? ==> r.value in Vars(t)
  {
    if t == [] then None
    else if IsUpper(t[0]) then
      assert t[0] in Vars(t);
      Some(t[0])
    else
      assert Vars(t) == Vars(t[1..]) by {
        forall c | c in Vars(t) ensures c in Vars(t[1..]) {
          var i :| 0 <= i < |t| && IsUpper(t[i]) && t[i] == c;
          assert t[1..][i - 1] == c;
        }
        forall c | c in Vars(t[1..]) ensures c in Vars(t) {
          var i :| 0 <= i < |t[1..]| && IsUpper(t[1..][i]) && t[1..][i] == c;
          assert t[i + 1] == c;
        }
      }
      FirstUpper(t[1..])
  }

  /** What `FirstUpper` finds is the leftmost uppercase character: nothing before it is one. */
  lemma {:induction false} FirstUpperIsFirst(t: string)
    ensures FirstUpper(t).Some? ==>
              exists i | 0 <= i < |t| :: t[i] == FirstUpper(t).value && forall j | 0 <= j < i :: !IsUpper(t[j])
  {
    if t != [] && !IsUpper(t[0]) && FirstUpper(t).Some? {
      FirstUpperIsFirst(t[1..]);
      var i :| 0 <= i < |t[1..]| && t[1..][i] == FirstUpper(t).value && forall j | 0 <= j < i :: !IsUpper(t[1..][j]);
      assert t[i + 1] == FirstUpper(t).value;
      forall j | 0 < j < i + 1 ensures !IsUpper(t[j]) {
        assert t[j] == t[1..][j - 1];
      }
    } else if t != [] && IsUpper(t[0]) {
      assert t[0] == FirstUpper(t).value;
    }
  }

  /** `next(filter(str.isupper, "".join(ts)))`: the first variable met scanning the clauses. */
  function FirstVar(ts: seq<string>): (r: Option<char>)
    ensures r.None? <==> ClauseVars(ts) == {}
    ensures r.Some? ==> r.value in ClauseVars(ts)
  {
    if ts == [] then None
    else match FirstUpper(ts[0])
      case Some(c) => Some(c)
      case None => FirstVar(ts[1..])
  }

  /** What `FirstVar` finds is the first uppercase letter of the first clause that has one. */
  lemma {:induction false} FirstVarIsFirst(ts: seq<string>)
    ensures FirstVar(ts).Some? ==>
              exists k | 0 <= k < |ts| :: FirstUpper(ts[k]) == FirstVar(ts) && forall j | 0 <= j < k :: Vars(ts[j]) == {}
  {
    if ts != [] && FirstUpper(ts[0]).None? && FirstVar(ts).Some? {
      FirstVarIsFirst(ts[1..]);
      var k :| 0 <= k < |ts[1..]| && FirstUpper(ts[1..][k]) == FirstVar(ts) && forall j | 0 <= j < k :: Vars(ts[1..][j]) == {};
      assert ts[k + 1] == ts[1..][k];
      assert forall j | 0 < j < k + 1 :: ts[j] == ts[1..][j - 1];
    } else if ts != [] {
      assert FirstUpper(ts[0]) == FirstVar(ts);
    }
  }

  /** All keys are uppercase letters. */
  predicate UpperKeys(a: Assignment) {
    forall v | v in a :: IsUpper(v)
  }

  /** `a` agrees with `m` on every key of `m`. */
  predicate Extends(m: Assignment, a: Assignment) {
    forall v | v in m :: v in a && a[v] == m[v]
  }

  /** `chosen_replacements.get(letter, letter)`. */
  function Resolve(a: Assignment, c: char): string {
    if c in a then a[c] else [c]
  }

  /** A clause with every bound symbol replaced by its value. */
  function Substitute(t: string, a: Assignment): string {
    if t == [] then [] else Resolve(a, t[0]) + Substitute(t[1..], a)
  }

  lemma {:induction false} SubstituteConcat(t: string, u: string, a: Assignment)
    ensures Substitute(t + u, a) == Substitute(t, a) + Substitute(u, a)
  {
    if t == [] {
      assert t + u == u;
    } else {
      SubstituteConcat(t[1..], u, a);
      assert (t + u)[1..] == t[1..] + u;
    }
  }

  /** A larger assignment substitutes a clause the same way when it binds none of its extra symbols. */
  lemma {:induction false} SubstituteExtends(t: string, m: Assignment, a: Assignment)
    requires Extends(m, a)
    requires forall i | 0 <= i < |t| :: t[i] in a ==> t[i] in m
    ensures Substitute(t, m) == Substitute(t, a)
  {
    if t != [] {
      SubstituteExtends(t[1..], m, a);
    }
  }

  /** The value of a variable of `t` occurs inside the substituted `t`. */
  lemma {:induction false} ValueOccursInSubstitute(t: string, a: Assignment, i: nat)
    requires i < |t| && t[i] in a
    ensures exists j :: OccursAt(Substitute(t, a), a[t[i]], j)
  {
    assert t == t[..i] + [t[i]] + t[i + 1..];
    SubstituteConcat(t[..i] + [t[i]], t[i + 1..], a);
    SubstituteConcat(t[..i], [t[i]], a);
    var pre := Substitute(t[..i], a);
    var whole := Substitute(t, a);
    assert whole == pre + a[t[i]] + Substitute(t[i + 1..], a);
    assert whole[|pre|..|pre| + |a[t[i]]|] == a[t[i]];
    assert OccursAt(whole, a[t[i]], |pre|);
  }

  /**
   * The problem's meaning: `a` binds exactly the clause variables, each to a
   * candidate of its domain, and every substituted clause is a substring of `s`.
   */
  predicate IsSolution(s: string, ts: seq<string>, rs: Domains, a: Assignment) {
    && a.Keys == ClauseVars(ts)
    && (forall v | v in a :: v in rs && a[v] in rs[v])
    && (forall k | 0 <= k < |ts| :: Occurs(s, Substitute(ts[k], a)))
  }

  /** In a solution every chosen value itself occurs in `s`. */
  lemma SolutionValuesOccur(s: string, ts: seq<string>, rs: Domains, a: Assignment, v: char)
    requires IsSolution(s, ts, rs, a) && v in a
    ensures Occurs(s, a[v])
  {
    ClauseVarsMember(ts, v);
    var k :| 0 <= k < |ts| && v in Vars(ts[k]);
    var i :| 0 <= i < |ts[k]| && IsUpper(ts[k][i]) && ts[k][i] == v;
    ValueOccursInSubstitute(ts[k], a, i);
    var j :| OccursAt(Substitute(ts[k], a), a[v], j);
    var p :| 0 <= p <= |s| - |Substitute(ts[k], a)| && OccursAt(s, Substitute(ts[k], a), p);
    OccursTransitive(s, Substitute(ts[k], a), a[v], p, j);
  }
}
