/**
 * Soundness, completeness and pruning of the backtracking search.
 *
 * Soundness: whatever `Found(a)` the search reports extends the starting
 * assignment with candidates from the domains, binds every clause variable,
 * and makes every substituted clause occur in `s` (at its anchor, when one
 * was given).
 *
 * Completeness: if some assignment of that kind exists, the search reports
 * `Found`, whatever order the candidates are tried in.
 */
module EngineProofs {
  import opened Text
  import opened Clauses
  import opened Engine

  /** Every anchor is an offset inside `s` or the "not anchored" sentinel. */
  predicate AnchorsWithin(s: string, starts: seq<int>) {
    forall k | 0 <= k < |starts| :: starts[k] <= |s|
  }

  /** What a reported assignment `a` promises about the state it was found from. */
  predicate Sound(s: string, ts: seq<string>, rs: Enum, chosen: Assignment, starts: seq<int>, a: Assignment)
    requires |starts| == |ts|
  {
    && Extends(chosen, a)
    && (forall v | v in a && v !in chosen :: v in ClauseVars(ts) && v in rs && a[v] in rs[v])
    && ClauseVars(ts) <= a.Keys
    && (forall k | 0 <= k < |ts| :: Occurs(s, Substitute(ts[k], a)))
    && (forall k | 0 <= k < |ts| && starts[k] >= 0 :: OccursAt(s, Substitute(ts[k], a), starts[k]))
  }

  /** An assignment that solves the remaining clauses from the given state. */
  predicate Witness(s: string, ts: seq<string>, rs: Enum, chosen: Assignment, starts: seq<int>, a: Assignment)
    requires |starts| == |ts|
  {
    && UpperKeys(a)
    && Extends(chosen, a)
    && ClauseVars(ts) <= a.Keys
    && (forall v | v in a && v !in chosen :: v in rs && a[v] in rs[v])
    && (forall k | 0 <= k < |ts| :: Occurs(s, Substitute(ts[k], a)))
    && (forall k | 0 <= k < |ts| && starts[k] >= 0 :: OccursAt(s, Substitute(ts[k], a), starts[k]))
  }

  // ---------------------------------------------------------------- soundness

  lemma {:induction false} SearchSound(s: string, ts: seq<string>, rs: Enum, chosen: Assignment,
                                       starts: seq<int>, a: Assignment)
    requires Ready(ts, rs, chosen) && |starts| == |ts|
    requires UpperKeys(chosen) && AnchorsWithin(s, starts)
    requires Search(s, ts, rs, chosen, starts) == Found(a)
    ensures Sound(s, ts, rs, chosen, starts, a)
    decreases Unbound(ts, chosen), |ts|, Pending(starts), if ts == [] then 0 else |ts[0]| + 1, 0
  {
    if ts == [] {
    } else {
      WalkSound(s, ts, rs, chosen, starts, 0, starts[0], a);
    }
  }

  lemma {:induction false} WalkSound(s: string, ts: seq<string>, rs: Enum, chosen: Assignment,
                                     starts: seq<int>, j: nat, pos: int, a: Assignment)
    requires Ready(ts, rs, chosen) && |starts| == |ts| && ts != [] && j <= |ts[0]|
    requires pos < 0 ==> starts[0] < 0 && j == 0
    requires UpperKeys(chosen) && AnchorsWithin(s, starts)
    requires forall i | 0 <= i < j :: IsUpper(ts[0][i]) ==> ts[0][i] in chosen
    requires pos >= 0 ==> 0 <= starts[0] <= pos <= |s| && s[starts[0]..pos] == Substitute(ts[0][..j], chosen)
    requires Walk(s, ts, rs, chosen, starts, j, pos) == Found(a)
    ensures Sound(s, ts, rs, chosen, starts, a)
    decreases Unbound(ts, chosen), |ts|, Pending(starts), |ts[0]| - j, 1
  {
    var t := ts[0];
    if j == |t| {
      FinishSound(s, ts, rs, chosen, starts, pos, a);
    } else {
      var c := t[j];
      var x := Resolve(chosen, c);
      UpperMeansUnbound(ts, rs, chosen, j);
      if IsUpperWord(x) {
        BranchBindSound(s, ts, rs, chosen, starts, c, rs[c], a);
      } else if pos >= 0 {
        StartsWithAtIsOccursAt(s, pos, x);
        MatchedPrefix(s, t, chosen, j, starts[0], pos);
        WalkSound(s, ts, rs, chosen, starts, j + 1, pos + |x|, a);
      } else {
        BranchAnchorSound(s, ts, rs, chosen, starts, FindAll(s, x, 0), a);
      }
    }
  }

  /** The clause loop ran to the end: the rest of the queue is searched with the same assignment. */
  lemma {:induction false} FinishSound(s: string, ts: seq<string>, rs: Enum, chosen: Assignment,
                                       starts: seq<int>, pos: int, a: Assignment)
    requires Ready(ts, rs, chosen) && |starts| == |ts| && ts != []
    requires pos < 0 ==> starts[0] < 0 && ts[0] == []
    requires UpperKeys(chosen) && AnchorsWithin(s, starts)
    requires forall i | 0 <= i < |ts[0]| :: IsUpper(ts[0][i]) ==> ts[0][i] in chosen
    requires pos >= 0 ==> 0 <= starts[0] <= pos <= |s| && s[starts[0]..pos] == Substitute(ts[0][..|ts[0]|], chosen)
    requires Search(s, ts[1..], rs, chosen, starts[1..]) == Found(a)
    ensures Sound(s, ts, rs, chosen, starts, a)
    decreases Unbound(ts, chosen), |ts|, Pending(starts), 0, 0
  {
    DropClauseKeepsUnbound(ts, chosen);
    SearchSound(s, ts[1..], rs, chosen, starts[1..], a);
    ClauseMatched(s, ts[0], chosen, starts[0], pos);
    SoundAfterFinish(s, ts, rs, chosen, starts, a);
  }

  lemma {:induction false} BranchBindSound(s: string, ts: seq<string>, rs: Enum, chosen: Assignment,
                                           starts: seq<int>, v: char, cands: seq<string>, a: Assignment)
    requires Ready(ts, rs, chosen) && |starts| == |ts|
    requires v in ClauseVars(ts) && v !in chosen
    requires forall w | w in cands :: w in rs[v]
    requires UpperKeys(chosen) && AnchorsWithin(s, starts)
    requires BranchBind(s, ts, rs, chosen, starts, v, cands) == Found(a)
    ensures Sound(s, ts, rs, chosen, starts, a)
    decreases Unbound(ts, chosen), 0, 0, 0, |cands|
  {
    BindShrinksUnbound(ts, chosen, v, cands[0]);
    var chosen' := chosen[v := cands[0]];
    match Search(s, ts, rs, chosen', starts)
    case Found(b) =>
      VarsAreUpper(ts, v);
      SearchSound(s, ts, rs, chosen', starts, a);
      SoundAfterBind(s, ts, rs, chosen, starts, v, cands[0], a);
    case Exhausted =>
      BranchBindSound(s, ts, rs, chosen, starts, v, cands[1..], a);
  }

  lemma {:induction false} BranchAnchorSound(s: string, ts: seq<string>, rs: Enum, chosen: Assignment,
                                             starts: seq<int>, occs: seq<int>, a: Assignment)
    requires Ready(ts, rs, chosen) && |starts| == |ts| && ts != [] && starts[0] < 0
    requires forall k | 0 <= k < |occs| :: 0 <= occs[k] <= |s|
    requires UpperKeys(chosen) && AnchorsWithin(s, starts)
    requires BranchAnchor(s, ts, rs, chosen, starts, occs) == Found(a)
    ensures Sound(s, ts, rs, chosen, starts, a)
    ensures exists k | 0 <= k < |occs| :: OccursAt(s, Substitute(ts[0], a), occs[k])
    decreases Unbound(ts, chosen), |ts|, 1, 0, |occs|
  {
    var starts' := starts[0 := occs[0]];
    match Search(s, ts, rs, chosen, starts')
    case Found(b) =>
      SearchSound(s, ts, rs, chosen, starts', a);
      forall k | 0 <= k < |ts| && starts[k] >= 0
        ensures OccursAt(s, Substitute(ts[k], a), starts[k])
      {
        assert starts'[k] == starts[k];
      }
      assert OccursAt(s, Substitute(ts[0], a), occs[0]);
    case Exhausted =>
      BranchAnchorSound(s, ts, rs, chosen, starts, occs[1..], a);
      var k :| 0 <= k < |occs[1..]| && OccursAt(s, Substitute(ts[0], a), occs[1..][k]);
      assert occs[1..][k] == occs[k + 1];
  }

  /** Clause variables are uppercase letters. */
  lemma VarsAreUpper(ts: seq<string>, v: char)
    requires v in ClauseVars(ts)
    ensures IsUpper(v)
  {
    ClauseVarsMember(ts, v);
    var k :| 0 <= k < |ts| && v in Vars(ts[k]);
  }

  /** Undoing one binding keeps a sound result sound: the bound value came from the domain. */
  lemma SoundAfterBind(s: string, ts: seq<string>, rs: Enum, chosen: Assignment, starts: seq<int>,
                       v: char, w: string, a: Assignment)
    requires |starts| == |ts|
    requires v in ClauseVars(ts) && v !in chosen && v in rs && w in rs[v]
    requires Sound(s, ts, rs, chosen[v := w], starts, a)
    ensures Sound(s, ts, rs, chosen, starts, a)
  {
  }

  /** A clause matched under `chosen` at its anchor joins a sound result for the rest of the queue. */
  lemma SoundAfterFinish(s: string, ts: seq<string>, rs: Enum, chosen: Assignment, starts: seq<int>, a: Assignment)
    requires |starts| == |ts| && ts != []
    requires UpperKeys(chosen) && Vars(ts[0]) <= chosen.Keys
    requires Sound(s, ts[1..], rs, chosen, starts[1..], a)
    requires Occurs(s, Substitute(ts[0], chosen))
    requires starts[0] >= 0 ==> OccursAt(s, Substitute(ts[0], chosen), starts[0])
    ensures Sound(s, ts, rs, chosen, starts, a)
  {
    var t := ts[0];
    forall i | 0 <= i < |t| && t[i] in a
      ensures t[i] in chosen
    {
      if t[i] !in chosen {
        VarsAreUpper(ts[1..], t[i]);
        assert false;
      }
    }
    SubstituteExtends(t, chosen, a);
    forall k | 1 <= k < |ts|
      ensures Occurs(s, Substitute(ts[k], a))
      ensures starts[k] >= 0 ==> OccursAt(s, Substitute(ts[k], a), starts[k])
    {
      assert ts[1..][k - 1] == ts[k] && starts[1..][k - 1] == starts[k];
    }
  }

  /** Matching one more resolved symbol extends the matched prefix of the clause. */
  lemma MatchedPrefix(s: string, t: string, chosen: Assignment, j: nat, start: int, pos: int)
    requires j < |t| && 0 <= start <= pos <= |s|
    requires s[start..pos] == Substitute(t[..j], chosen)
    requires OccursAt(s, Resolve(chosen, t[j]), pos)
    ensures s[start..pos + |Resolve(chosen, t[j])|] == Substitute(t[..j + 1], chosen)
  {
    var x := Resolve(chosen, t[j]);
    assert t[..j + 1] == t[..j] + [t[j]];
    SubstituteConcat(t[..j], [t[j]], chosen);
    assert Substitute([t[j]], chosen) == x;
    assert s[start..pos + |x|] == s[start..pos] + s[pos..pos + |x|];
  }

  /** At the end of the symbol loop the whole clause, resolved by `chosen`, sits at the anchor. */
  lemma ClauseMatched(s: string, t: string, chosen: Assignment, start: int, pos: int)
    requires forall i | 0 <= i < |t| :: IsUpper(t[i]) ==> t[i] in chosen
    requires pos < 0 ==> start < 0 && t == []
    requires pos >= 0 ==> 0 <= start <= pos <= |s| && s[start..pos] == Substitute(t[..|t|], chosen)
    ensures Vars(t) <= chosen.Keys
    ensures Occurs(s, Substitute(t, chosen))
    ensures start >= 0 ==> OccursAt(s, Substitute(t, chosen), start)
  {
    assert t[..|t|] == t;
    forall v | v in Vars(t) ensures v in chosen {
      var i :| 0 <= i < |t| && IsUpper(t[i]) && t[i] == v;
    }
    if pos >= 0 {
      assert OccursAt(s, Substitute(t, chosen), start);
    } else {
      assert OccursAt(s, Substitute(t, chosen), 0);
    }
  }

  // ------------------------------------------------------------- completeness

  lemma {:induction false} SearchComplete(s: string, ts: seq<string>, rs: Enum, chosen: Assignment,
                                          starts: seq<int>, a: Assignment)
    requires Ready(ts, rs, chosen) && |starts| == |ts|
    requires Witness(s, ts, rs, chosen, starts, a)
    ensures Search(s, ts, rs, chosen, starts).Found?
    decreases Unbound(ts, chosen), |ts|, Pending(starts), if ts == [] then 0 else |ts[0]| + 1, 0
  {
    if ts != [] {
      assert ts[0][0..] == ts[0];
      WalkComplete(s, ts, rs, chosen, starts, 0, starts[0], a);
    }
  }

  lemma {:induction false} WalkComplete(s: string, ts: seq<string>, rs: Enum, chosen: Assignment,
                                        starts: seq<int>, j: nat, pos: int, a: Assignment)
    requires Ready(ts, rs, chosen) && |starts| == |ts| && ts != [] && j <= |ts[0]|
    requires pos < 0 ==> starts[0] < 0 && j == 0
    requires Witness(s, ts, rs, chosen, starts, a)
    requires pos >= 0 ==> OccursAt(s, Substitute(ts[0][j..], a), pos)
    ensures Walk(s, ts, rs, chosen, starts, j, pos).Found?
    decreases Unbound(ts, chosen), |ts|, Pending(starts), |ts[0]| - j, 1
  {
    var t := ts[0];
    if j == |t| {
      FinishComplete(s, ts, rs, chosen, starts, a);
    } else {
      var c := t[j];
      var x := Resolve(chosen, c);
      UpperMeansUnbound(ts, rs, chosen, j);
      if IsUpperWord(x) {
        BindStepComplete(s, ts, rs, chosen, starts, j, a);
      } else if pos >= 0 {
        NextSymbolMatches(s, t, chosen, a, j, pos);
        StartsWithAtIsOccursAt(s, pos, x);
        WalkComplete(s, ts, rs, chosen, starts, j + 1, pos + |x|, a);
      } else {
        AnchorStepComplete(s, ts, rs, chosen, starts, a);
      }
    }
  }

  /** The symbol at `j` is an unbound variable: the witness's value is among its candidates. */
  lemma {:induction false} BindStepComplete(s: string, ts: seq<string>, rs: Enum, chosen: Assignment,
                                            starts: seq<int>, j: nat, a: Assignment)
    requires Ready(ts, rs, chosen) && |starts| == |ts| && ts != [] && j < |ts[0]|
    requires ts[0][j] !in chosen && IsUpper(ts[0][j]) && ts[0][j] in ClauseVars(ts)
    requires Witness(s, ts, rs, chosen, starts, a)
    ensures BranchBind(s, ts, rs, chosen, starts, ts[0][j], rs[ts[0][j]]).Found?
    decreases Unbound(ts, chosen), |ts|, Pending(starts), |ts[0]| - j, 0
  {
    BranchBindComplete(s, ts, rs, chosen, starts, ts[0][j], rs[ts[0][j]], a);
  }

  /** The clause is not anchored: the witness's occurrence is among the first symbol's occurrences. */
  lemma {:induction false} AnchorStepComplete(s: string, ts: seq<string>, rs: Enum, chosen: Assignment,
                                              starts: seq<int>, a: Assignment)
    requires Ready(ts, rs, chosen) && |starts| == |ts| && ts != [] && ts[0] != [] && starts[0] < 0
    requires ts[0][0] !in chosen ==> !IsUpper(ts[0][0])
    requires Witness(s, ts, rs, chosen, starts, a)
    ensures BranchAnchor(s, ts, rs, chosen, starts, FindAll(s, Resolve(chosen, ts[0][0]), 0)).Found?
    decreases Unbound(ts, chosen), |ts|, 1, |ts[0]|, 0
  {
    var p := AnchorOfFirstSymbol(s, ts[0], chosen, a);
    var starts' := starts[0 := p];
    forall k | 0 <= k < |ts| && starts'[k] >= 0
      ensures OccursAt(s, Substitute(ts[k], a), starts'[k])
    {
    }
    BranchAnchorComplete(s, ts, rs, chosen, starts, FindAll(s, Resolve(chosen, ts[0][0]), 0), p, a);
  }

  lemma {:induction false} FinishComplete(s: string, ts: seq<string>, rs: Enum, chosen: Assignment,
                                          starts: seq<int>, a: Assignment)
    requires Ready(ts, rs, chosen) && |starts| == |ts| && ts != []
    requires Witness(s, ts, rs, chosen, starts, a)
    ensures Search(s, ts[1..], rs, chosen, starts[1..]).Found?
    decreases Unbound(ts, chosen), |ts|, Pending(starts), 0, 0
  {
    DropClauseKeepsUnbound(ts, chosen);
    WitnessForRest(s, ts, rs, chosen, starts, a);
    SearchComplete(s, ts[1..], rs, chosen, starts[1..], a);
  }

  lemma {:induction false} BranchBindComplete(s: string, ts: seq<string>, rs: Enum, chosen: Assignment,
                                              starts: seq<int>, v: char, cands: seq<string>, a: Assignment)
    requires Ready(ts, rs, chosen) && |starts| == |ts|
    requires v in ClauseVars(ts) && v !in chosen
    requires forall w | w in cands :: w in rs[v]
    requires Witness(s, ts, rs, chosen, starts, a)
    requires a[v] in cands
    ensures BranchBind(s, ts, rs, chosen, starts, v, cands).Found?
    decreases Unbound(ts, chosen), 0, 0, 0, |cands|
  {
    BindShrinksUnbound(ts, chosen, v, cands[0]);
    if cands[0] == a[v] {
      WitnessAfterBind(s, ts, rs, chosen, starts, v, a);
      SearchComplete(s, ts, rs, chosen[v := a[v]], starts, a);
    } else {
      assert a[v] in cands[1..];
      if Search(s, ts, rs, chosen[v := cands[0]], starts).Exhausted? {
        BranchBindComplete(s, ts, rs, chosen, starts, v, cands[1..], a);
      }
    }
  }

  lemma {:induction false} BranchAnchorComplete(s: string, ts: seq<string>, rs: Enum, chosen: Assignment,
                                                starts: seq<int>, occs: seq<int>, p: int, a: Assignment)
    requires Ready(ts, rs, chosen) && |starts| == |ts| && ts != [] && starts[0] < 0
    requires forall k | 0 <= k < |occs| :: 0 <= occs[k] <= |s|
    requires p in occs
    requires Witness(s, ts, rs, chosen, starts[0 := p], a)
    ensures BranchAnchor(s, ts, rs, chosen, starts, occs).Found?
    decreases Unbound(ts, chosen), |ts|, 1, 0, |occs|
  {
    if occs[0] == p {
      SearchComplete(s, ts, rs, chosen, starts[0 := p], a);
    } else {
      if Search(s, ts, rs, chosen, starts[0 := occs[0]]).Exhausted? {
        BranchAnchorComplete(s, ts, rs, chosen, starts, occs[1..], p, a);
      }
    }
  }

  /** Binding a variable to the witness's own value keeps it a witness. */
  lemma WitnessAfterBind(s: string, ts: seq<string>, rs: Enum, chosen: Assignment, starts: seq<int>,
                         v: char, a: Assignment)
    requires |starts| == |ts| && v in a
    requires Witness(s, ts, rs, chosen, starts, a)
    ensures Witness(s, ts, rs, chosen[v := a[v]], starts, a)
  {
  }

  /** A witness for the queue is a witness for the queue without its head. */
  lemma WitnessForRest(s: string, ts: seq<string>, rs: Enum, chosen: Assignment, starts: seq<int>, a: Assignment)
    requires |starts| == |ts| && ts != []
    requires Witness(s, ts, rs, chosen, starts, a)
    ensures Witness(s, ts[1..], rs, chosen, starts[1..], a)
  {
    forall k | 0 <= k < |ts| - 1
      ensures Occurs(s, Substitute(ts[1..][k], a))
      ensures starts[1..][k] >= 0 ==> OccursAt(s, Substitute(ts[1..][k], a), starts[1..][k])
    {
      assert ts[1..][k] == ts[k + 1] && starts[1..][k] == starts[k + 1];
    }
  }

  /** A resolved (non-variable) symbol substitutes the same under the witness. */
  lemma NextSymbolMatches(s: string, t: string, chosen: Assignment, a: Assignment, j: nat, pos: int)
    requires j < |t| && UpperKeys(a) && Extends(chosen, a)
    requires !IsUpperWord(Resolve(chosen, t[j]))
    requires t[j] !in chosen ==> !IsUpper(t[j])
    requires OccursAt(s, Substitute(t[j..], a), pos)
    ensures OccursAt(s, Resolve(chosen, t[j]), pos)
    ensures OccursAt(s, Substitute(t[j + 1..], a), pos + |Resolve(chosen, t[j])|)
  {
    assert t[j..][1..] == t[j + 1..];
    assert Resolve(a, t[j]) == Resolve(chosen, t[j]);
    OccursAtConcat(s, Resolve(chosen, t[j]), Substitute(t[j + 1..], a), pos);
  }

  /** An occurrence of the whole substituted clause is an occurrence of its first resolved symbol. */
  lemma AnchorOfFirstSymbol(s: string, t: string, chosen: Assignment, a: Assignment) returns (p: int)
    requires t != [] && UpperKeys(a) && Extends(chosen, a)
    requires t[0] !in chosen ==> !IsUpper(t[0])
    requires Occurs(s, Substitute(t, a))
    ensures 0 <= p <= |s| && OccursAt(s, Substitute(t, a), p) && OccursAt(s, Resolve(chosen, t[0]), p)
  {
    p :| 0 <= p <= |s| - |Substitute(t, a)| && OccursAt(s, Substitute(t, a), p);
    assert Resolve(a, t[0]) == Resolve(chosen, t[0]);
    OccursAtConcat(s, Resolve(chosen, t[0]), Substitute(t[1..], a), p);
  }

  // ------------------------------------------------------------------ pruning

  /**
   * At a known offset, a clause whose remaining symbols are all resolved
   * costs one substring test: if the substituted remainder does not start at
   * `pos` the branch ends with no result, otherwise the offset has advanced
   * past it and the search moves on to the next clause.
   */
  lemma {:induction false} WalkBoundClause(s: string, ts: seq<string>, rs: Enum, chosen: Assignment,
                                           starts: seq<int>, j: nat, pos: int)
    requires Ready(ts, rs, chosen) && |starts| == |ts| && ts != [] && j <= |ts[0]|
    requires 0 <= pos <= |s|
    requires forall i | j <= i < |ts[0]| :: IsUpper(ts[0][i]) ==> ts[0][i] in chosen
    ensures Walk(s, ts, rs, chosen, starts, j, pos) ==
              if OccursAt(s, Substitute(ts[0][j..], chosen), pos)
              then Search(s, ts[1..], rs, chosen, starts[1..])
              else Exhausted
    decreases |ts[0]| - j
  {
    var t := ts[0];
    if j == |t| {
      assert t[j..] == [];
      assert OccursAt(s, Substitute(t[j..], chosen), pos);
    } else {
      var x := Resolve(chosen, t[j]);
      UpperMeansUnbound(ts, rs, chosen, j);
      StartsWithAtIsOccursAt(s, pos, x);
      assert t[j..][1..] == t[j + 1..];
      OccursAtConcat(s, x, Substitute(t[j + 1..], chosen), pos);
      if OccursAt(s, x, pos) {
        WalkBoundClause(s, ts, rs, chosen, starts, j + 1, pos + |x|);
      }
    }
  }
}
