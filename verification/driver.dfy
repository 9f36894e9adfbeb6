/**
 * The decision procedure `A`: prune, report an emptied domain, split on the
 * first variable, search, then re-check the reported assignment.
 *
 * The process pool that runs one search per candidate of the first variable
 * is modelled sequentially: the seeds are tried in the iteration order of
 * that variable's domain and the first `Found` is reported. Any seed whose
 * search succeeds could win the race in the source; the properties below
 * hold for every iteration order, hence for whichever seed wins.
 */
module Driver {
  import opened Wrappers
  import opened Text
  import opened Clauses
  import opened Engine
  import opened EngineProofs
  import opened Validator
  import opened Simplifier

  /**
   * What `A` ends with: `False` after pruning (check.py:109), `(False, None)`,
   * `(True, replacements)`, the `StopIteration` of check.py:119 when no clause
   * has a variable, or the validator's `ValueError`.
   */
  datatype Verdict = EmptyDomain | NoSolution | Solution(assignment: Assignment) | NoVariable | Fault

  /** `order` enumerates every domain set of `rs`. */
  predicate Lists(order: Enum, rs: Domains) {
    order.Keys == rs.Keys && forall v | v in order :: Elems(order[v]) == rs[v]
  }

  /** What the parser guarantees to `A`: every clause variable declared, every candidate lowercase. */
  predicate Declared(ts: seq<string>, rs: Domains) {
    && ClauseVars(ts) <= rs.Keys
    && forall v | v in rs :: forall c | c in rs[v] :: AllLower(c)
  }

  /** The candidates of `xs` that are kept, in their original order. */
  function Keep(xs: seq<string>, keep: set<string>): (r: seq<string>)
    ensures Elems(r) == Elems(xs) * keep
  {
    if xs == [] then []
    else
      var rest := Keep(xs[1..], keep);
      assert xs == [xs[0]] + xs[1..];
      assert Elems(xs) == {xs[0]} + Elems(xs[1..]);
      if xs[0] in keep then
        assert Elems([xs[0]] + rest) == {xs[0]} + Elems(rest);
        [xs[0]] + rest
      else rest
  }

  /** The iteration order of the pruned domains: the original order with pruned candidates skipped. */
  function PrunedOrder(order: Enum, pruned: Domains): (e: Enum)
    requires pruned.Keys <= order.Keys
    ensures e.Keys == pruned.Keys
    ensures forall v | v in e :: Elems(e[v]) == Elems(order[v]) * pruned[v]
  {
    map v | v in pruned :: Keep(order[v], pruned[v])
  }

  /** `[-1]*len(ts)`: no clause anchored. */
  function Unanchored(n: nat): (starts: seq<int>)
    ensures |starts| == n && forall k | 0 <= k < n :: starts[k] < 0
  {
    seq(n, _ => -1)
  }

  /** Some pruned domain of a referenced variable is empty (`not all(rs.values())`). */
  predicate SomeDomainEmpty(pruned: Domains) {
    exists v | v in pruned :: pruned[v] == {}
  }

  lemma PrunedReady(s: string, ts: seq<string>, rs: Domains, order: Enum)
    requires Declared(ts, rs) && Lists(order, rs)
    ensures Prune(s, ts, rs).Keys == ClauseVars(ts)
    ensures Ready(ts, PrunedOrder(order, Prune(s, ts, rs)), map[])
    ensures forall v | v in ClauseVars(ts) :: forall w | w in PrunedOrder(order, Prune(s, ts, rs))[v] ::
              w in Prune(s, ts, rs)[v]
  {
    var pruned := Prune(s, ts, rs);
    var e := PrunedOrder(order, pruned);
    forall v, w | v in e && w in e[v]
      ensures AllLower(w) && w in pruned[v]
    {
      assert w in Elems(e[v]);
    }
  }

  /** `A(s, ts, rs)` as written, with `order` the iteration order of the domain sets. */
  function Solve(s: string, ts: seq<string>, rs: Domains, order: Enum): Verdict
    requires Declared(ts, rs) && Lists(order, rs)
  {
    var pruned := Prune(s, ts, rs);
    if SomeDomainEmpty(pruned) then EmptyDomain
    else match FirstVar(ts)
      case None => NoVariable
      case Some(v) =>
        var e := PrunedOrder(order, pruned);
        PrunedReady(s, ts, rs, order);
        match BranchBind(s, ts, e, map[], Unanchored(|ts|), v, e[v])
        case Exhausted => NoSolution
        case Found(a) => if Validates(s, ts, a) then Solution(a) else Fault
  }

  /**
   * `A` with the split made total: when no clause has a variable there is
   * nothing to seed, so the search runs once from the empty assignment (the
   * call left commented out at check.py:128).
   */
  function SolveCorrected(s: string, ts: seq<string>, rs: Domains, order: Enum): Verdict
    requires Declared(ts, rs) && Lists(order, rs)
  {
    var pruned := Prune(s, ts, rs);
    if SomeDomainEmpty(pruned) then EmptyDomain
    else
      var e := PrunedOrder(order, pruned);
      PrunedReady(s, ts, rs, order);
      var result := match FirstVar(ts)
        case None => Search(s, ts, e, map[], Unanchored(|ts|))
        case Some(v) => BranchBind(s, ts, e, map[], Unanchored(|ts|), v, e[v]);
      match result
      case Exhausted => NoSolution
      case Found(a) => if Validates(s, ts, a) then Solution(a) else Fault
  }

  /** An assignment the search reports from the empty state solves the original problem and passes validation. */
  lemma FoundIsSolution(s: string, ts: seq<string>, rs: Domains, order: Enum, a: Assignment)
    requires Declared(ts, rs) && Lists(order, rs)
    requires Sound(s, ts, PrunedOrder(order, Prune(s, ts, rs)), map[], Unanchored(|ts|), a)
    ensures IsSolution(s, ts, rs, a) && Validates(s, ts, a)
  {
    var e := PrunedOrder(order, Prune(s, ts, rs));
    PrunedReady(s, ts, rs, order);
    SoundFromEmpty(s, ts, rs, e, a);
    SolutionValidates(s, ts, rs, a);
  }

  lemma SoundFromEmpty(s: string, ts: seq<string>, rs: Domains, e: Enum, a: Assignment)
    requires forall v | v in e :: v in rs && forall w | w in e[v] :: w in rs[v]
    requires Sound(s, ts, e, map[], Unanchored(|ts|), a)
    ensures IsSolution(s, ts, rs, a)
  {
  }

  /** The validator accepts every solution of a parsed problem. */
  lemma SolutionValidates(s: string, ts: seq<string>, rs: Domains, a: Assignment)
    requires Declared(ts, rs) && IsSolution(s, ts, rs, a)
    ensures Validates(s, ts, a)
  {
    forall v | v in a
      ensures IsUpper(v) && AllLower(a[v])
    {
      VarsAreUpper(ts, v);
    }
    ValidatesSolution(s, ts, a);
  }

  /** A solution of the original problem survives pruning and solves the search from the empty state. */
  lemma SolutionIsWitness(s: string, ts: seq<string>, rs: Domains, order: Enum, a: Assignment)
    requires Declared(ts, rs) && Lists(order, rs)
    requires IsSolution(s, ts, rs, a)
    ensures !SomeDomainEmpty(Prune(s, ts, rs))
    ensures Witness(s, ts, PrunedOrder(order, Prune(s, ts, rs)), map[], Unanchored(|ts|), a)
  {
    var pruned := Prune(s, ts, rs);
    var e := PrunedOrder(order, pruned);
    PrunedReady(s, ts, rs, order);
    PrunePreservesSolutions(s, ts, rs, a);
    forall v | v in a
      ensures IsUpper(v) && v in e && a[v] in e[v]
    {
      VarsAreUpper(ts, v);
      assert a[v] in Elems(e[v]);
    }
  }

  /** After pruning, some domain is empty exactly when a referenced variable has no candidate occurring in `s`. */
  lemma PruneEmptiesDomain(s: string, ts: seq<string>, rs: Domains)
    requires ClauseVars(ts) <= rs.Keys
    ensures SomeDomainEmpty(Prune(s, ts, rs)) <==>
              exists v | v in ClauseVars(ts) :: forall c | c in rs[v] :: !Occurs(s, c)
  {
    var pruned := Prune(s, ts, rs);
    if exists v | v in ClauseVars(ts) :: forall c | c in rs[v] :: !Occurs(s, c) {
      var v :| v in ClauseVars(ts) && forall c | c in rs[v] :: !Occurs(s, c);
      assert pruned[v] == {};
    }
    if SomeDomainEmpty(pruned) {
      var v :| v in pruned && pruned[v] == {};
      assert forall c | c in rs[v] :: !Occurs(s, c);
    }
  }

  lemma SolveEmptyDomain(s: string, ts: seq<string>, rs: Domains, order: Enum)
    requires Declared(ts, rs) && Lists(order, rs)
    ensures Solve(s, ts, rs, order) == EmptyDomain <==>
              exists v | v in ClauseVars(ts) :: forall c | c in rs[v] :: !Occurs(s, c)
  {
    PruneEmptiesDomain(s, ts, rs);
  }

  /** A reported solution is a solution. */
  lemma SolveSound(s: string, ts: seq<string>, rs: Domains, order: Enum)
    requires Declared(ts, rs) && Lists(order, rs)
    ensures Solve(s, ts, rs, order).Solution? ==> IsSolution(s, ts, rs, Solve(s, ts, rs, order).assignment)
    ensures Solve(s, ts, rs, order) != Fault
  {
    var pruned := Prune(s, ts, rs);
    if !SomeDomainEmpty(pruned) && FirstVar(ts).Some? {
      var v := FirstVar(ts).value;
      var e := PrunedOrder(order, pruned);
      PrunedReady(s, ts, rs, order);
      var starts := Unanchored(|ts|);
      if BranchBind(s, ts, e, map[], starts, v, e[v]).Found? {
        var a := BranchBind(s, ts, e, map[], starts, v, e[v]).assignment;
        BranchBindSound(s, ts, e, map[], starts, v, e[v], a);
        FoundIsSolution(s, ts, rs, order, a);
      }
    }
  }

  /** With at least one clause variable, `A` finds a solution exactly when one exists. */
  lemma SolveComplete(s: string, ts: seq<string>, rs: Domains, order: Enum)
    requires Declared(ts, rs) && Lists(order, rs)
    requires ClauseVars(ts) != {}
    ensures Solve(s, ts, rs, order).Solution? <==> exists a :: IsSolution(s, ts, rs, a)
  {
    SolveSound(s, ts, rs, order);
    if exists a :: IsSolution(s, ts, rs, a) {
      var a :| IsSolution(s, ts, rs, a);
      SolutionIsWitness(s, ts, rs, order, a);
      var pruned := Prune(s, ts, rs);
      var v := FirstVar(ts).value;
      var e := PrunedOrder(order, pruned);
      PrunedReady(s, ts, rs, order);
      BranchBindComplete(s, ts, e, map[], Unanchored(|ts|), v, e[v], a);
    }
  }

  /** `A` as written fails on every problem whose clauses have no variable. */
  lemma SolveNoVariable(s: string, ts: seq<string>, rs: Domains, order: Enum)
    requires Declared(ts, rs) && Lists(order, rs)
    ensures Solve(s, ts, rs, order) == NoVariable <==> ClauseVars(ts) == {}
  {
    if ClauseVars(ts) == {} {
      assert Prune(s, ts, rs) == map[];
    }
  }

  /** A satisfiable problem without variables on which `A` as written fails. */
  lemma NoVariableCounterexample()
    ensures IsSolution("cabac", ["ab", "ba"], map[], map[])
    ensures Solve("cabac", ["ab", "ba"], map[], map[]) == NoVariable
  {
    var s: string := "cabac";
    var ts: seq<string> := ["ab", "ba"];
    NoVars("ab");
    NoVars("ba");
    assert ClauseVars(ts) == {} by {
      assert ClauseVars(ts[1..][1..]) == {};
    }
    assert Substitute("ab", map[]) == "ab" && Substitute("ba", map[]) == "ba";
    assert s[1] == 'a' && s[2] == 'b' && s[3] == 'a';
    assert s[1..3] == "ab" && s[2..4] == "ba";
    assert OccursAt(s, "ab", 1) && OccursAt(s, "ba", 2);
    assert Occurs(s, Substitute(ts[0], map[])) && Occurs(s, Substitute(ts[1], map[]));
    SolveNoVariable(s, ts, map[], map[]);
  }

  lemma NoVars(t: string)
    requires forall i | 0 <= i < |t| :: IsLower(t[i])
    ensures Vars(t) == {}
  {
  }

  /**
   * The corrected driver decides the problem in every case: it never
   * faults, never fails for lack of a variable, and reports a solution
   * exactly when one exists.
   */
  lemma SolveCorrectedDecides(s: string, ts: seq<string>, rs: Domains, order: Enum)
    requires Declared(ts, rs) && Lists(order, rs)
    ensures SolveCorrected(s, ts, rs, order) != Fault && SolveCorrected(s, ts, rs, order) != NoVariable
    ensures SolveCorrected(s, ts, rs, order).Solution? ==>
              IsSolution(s, ts, rs, SolveCorrected(s, ts, rs, order).assignment)
    ensures SolveCorrected(s, ts, rs, order).Solution? <==> exists a :: IsSolution(s, ts, rs, a)
  {
    var pruned := Prune(s, ts, rs);
    var e := PrunedOrder(order, pruned);
    var starts := Unanchored(|ts|);
    PrunedReady(s, ts, rs, order);
    if !SomeDomainEmpty(pruned) {
      if FirstVar(ts).None? && Search(s, ts, e, map[], starts).Found? {
        var a := Search(s, ts, e, map[], starts).assignment;
        SearchSound(s, ts, e, map[], starts, a);
        FoundIsSolution(s, ts, rs, order, a);
      }
      if FirstVar(ts).Some? {
        var v := FirstVar(ts).value;
        if BranchBind(s, ts, e, map[], starts, v, e[v]).Found? {
          var a := BranchBind(s, ts, e, map[], starts, v, e[v]).assignment;
          BranchBindSound(s, ts, e, map[], starts, v, e[v], a);
          FoundIsSolution(s, ts, rs, order, a);
        }
      }
    }
    if exists a :: IsSolution(s, ts, rs, a) {
      var a :| IsSolution(s, ts, rs, a);
      SolutionIsWitness(s, ts, rs, order, a);
      if FirstVar(ts).None? {
        SearchComplete(s, ts, e, map[], starts, a);
      } else {
        var v := FirstVar(ts).value;
        BranchBindComplete(s, ts, e, map[], starts, v, e[v], a);
      }
    }
  }

  /** The correction only touches the crash: wherever `A` has a variable to split on, both agree. */
  lemma SolveCorrectedAgrees(s: string, ts: seq<string>, rs: Domains, order: Enum)
    requires Declared(ts, rs) && Lists(order, rs)
    ensures Solve(s, ts, rs, order) != NoVariable ==> SolveCorrected(s, ts, rs, order) == Solve(s, ts, rs, order)
  {
  }

  /** From the empty state over the pruned domains, the unseeded search finds an assignment exactly when a solution exists. */
  lemma UnseededDecides(s: string, ts: seq<string>, rs: Domains, order: Enum)
    requires Declared(ts, rs) && Lists(order, rs)
    ensures Ready(ts, PrunedOrder(order, Prune(s, ts, rs)), map[])
    ensures Search(s, ts, PrunedOrder(order, Prune(s, ts, rs)), map[], Unanchored(|ts|)).Found? <==>
              exists a :: IsSolution(s, ts, rs, a)
  {
    var e := PrunedOrder(order, Prune(s, ts, rs));
    var starts := Unanchored(|ts|);
    PrunedReady(s, ts, rs, order);
    if Search(s, ts, e, map[], starts).Found? {
      var a := Search(s, ts, e, map[], starts).assignment;
      SearchSound(s, ts, e, map[], starts, a);
      FoundIsSolution(s, ts, rs, order, a);
    }
    if exists a :: IsSolution(s, ts, rs, a) {
      var a :| IsSolution(s, ts, rs, a);
      SolutionIsWitness(s, ts, rs, order, a);
      SearchComplete(s, ts, e, map[], starts, a);
    }
  }

  /** From the empty state over the pruned domains, the union of the seeded searches finds an assignment exactly when a solution exists. */
  lemma SeededDecides(s: string, ts: seq<string>, rs: Domains, order: Enum, v: char)
    requires Declared(ts, rs) && Lists(order, rs)
    requires FirstVar(ts) == Some(v)
    ensures Ready(ts, PrunedOrder(order, Prune(s, ts, rs)), map[]) && v in PrunedOrder(order, Prune(s, ts, rs))
    ensures
      var e := PrunedOrder(order, Prune(s, ts, rs));
      BranchBind(s, ts, e, map[], Unanchored(|ts|), v, e[v]).Found? <==> exists a :: IsSolution(s, ts, rs, a)
  {
    var e := PrunedOrder(order, Prune(s, ts, rs));
    var starts := Unanchored(|ts|);
    PrunedReady(s, ts, rs, order);
    if BranchBind(s, ts, e, map[], starts, v, e[v]).Found? {
      var a := BranchBind(s, ts, e, map[], starts, v, e[v]).assignment;
      BranchBindSound(s, ts, e, map[], starts, v, e[v], a);
      FoundIsSolution(s, ts, rs, order, a);
    }
    if exists a :: IsSolution(s, ts, rs, a) {
      var a :| IsSolution(s, ts, rs, a);
      SolutionIsWitness(s, ts, rs, order, a);
      BranchBindComplete(s, ts, e, map[], starts, v, e[v], a);
    }
  }

  /**
   * Splitting on the first variable loses nothing: the union of the seeded
   * searches finds an assignment exactly when the unseeded search does.
   */
  lemma SeededSplitAgrees(s: string, ts: seq<string>, rs: Domains, order: Enum, v: char)
    requires Declared(ts, rs) && Lists(order, rs)
    requires FirstVar(ts) == Some(v)
    ensures Ready(ts, PrunedOrder(order, Prune(s, ts, rs)), map[]) && v in PrunedOrder(order, Prune(s, ts, rs))
    ensures
      var e := PrunedOrder(order, Prune(s, ts, rs));
      BranchBind(s, ts, e, map[], Unanchored(|ts|), v, e[v]).Found? <==> Search(s, ts, e, map[], Unanchored(|ts|)).Found?
  {
    PrunedReady(s, ts, rs, order);
    UnseededDecides(s, ts, rs, order);
    SeededDecides(s, ts, rs, order, v);
  }
}
