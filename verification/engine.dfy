/**
 * The recursive backtracking search `_A`.
 *
 * The state is the remaining clause queue `ts`, the anchor vector `starts`
 * (one offset per clause, negative for "not anchored yet") and the partial
 * assignment `chosen`. Domains arrive as `Enum`: each variable's candidates
 * in the order the source happens to iterate its set. Every property below
 * holds for every such order.
 *
 * The source signals success by raising an exception from the innermost
 * call; here every call returns `Found(assignment)` or `Exhausted`, and a
 * branch loop stops at the first `Found`.
 */
module Engine {
  import opened Text
  import opened Clauses

  /** Each variable's candidates, in iteration order. */
  type Enum = map<char, seq<string>>

  datatype Outcome = Found(assignment: Assignment) | Exhausted

  /** Every candidate is lowercase text. */
  predicate LowerCandidates(rs: Enum) {
    forall v | v in rs :: forall w | w in rs[v] :: AllLower(w)
  }

  /** What the search needs of its state: domains for every clause variable, lowercase values. */
  predicate Ready(ts: seq<string>, rs: Enum, chosen: Assignment) {
    && ClauseVars(ts) <= rs.Keys
    && LowerCandidates(rs)
    && (forall v | v in chosen :: AllLower(chosen[v]))
  }

  /** Clause variables not bound yet: the first component of the termination measure. */
  function Unbound(ts: seq<string>, chosen: Assignment): nat {
    |ClauseVars(ts) - chosen.Keys|
  }

  /** 1 while the current clause still waits for its anchor. */
  function Pending(starts: seq<int>): nat {
    if |starts| > 0 && starts[0] < 0 then 1 else 0
  }

  /** Binding a new clause variable leaves strictly fewer unbound (check.py:52-55). */
  lemma BindShrinksUnbound(ts: seq<string>, chosen: Assignment, v: char, w: string)
    requires v in ClauseVars(ts) && v !in chosen
    ensures Unbound(ts, chosen[v := w]) < Unbound(ts, chosen)
  {
    var before := ClauseVars(ts) - chosen.Keys;
    var after := ClauseVars(ts) - chosen[v := w].Keys;
    assert before == after + {v};
  }

  /** Dropping a finished clause never adds unbound variables (check.py:76-77). */
  lemma DropClauseKeepsUnbound(ts: seq<string>, chosen: Assignment)
    requires ts != []
    ensures Unbound(ts[1..], chosen) <= Unbound(ts, chosen)
  {
    SubsetCardinality(ClauseVars(ts[1..]) - chosen.Keys, ClauseVars(ts) - chosen.Keys);
  }

  lemma {:induction false} SubsetCardinality<T>(a: set<T>, b: set<T>)
    requires a <= b
    ensures |a| <= |b|
    decreases |a|
  {
    if a != {} {
      var x :| x in a;
      SubsetCardinality(a - {x}, b - {x});
    }
  }

  /** Resolving to an uppercase word means the symbol is an unbound clause variable. */
  lemma UpperMeansUnbound(ts: seq<string>, rs: Enum, chosen: Assignment, j: nat)
    requires Ready(ts, rs, chosen) && ts != [] && j < |ts[0]|
    ensures IsUpperWord(Resolve(chosen, ts[0][j])) <==>
              ts[0][j] !in chosen && IsUpper(ts[0][j])
    ensures IsUpperWord(Resolve(chosen, ts[0][j])) ==>
              ts[0][j] in ClauseVars(ts) && ts[0][j] in rs
  {
    var c := ts[0][j];
    if c !in chosen && IsUpper(c) {
      assert [c][0] == c;
      assert c in Vars(ts[0]);
    }
  }

  /**
   * `_A(s, ts, rs, chosen, starts)`: work through the clauses in order; an
   * empty queue means every clause matched.
   */
  function Search(s: string, ts: seq<string>, rs: Enum, chosen: Assignment, starts: seq<int>): Outcome
    requires Ready(ts, rs, chosen) && |starts| == |ts|
    decreases Unbound(ts, chosen), |ts|, Pending(starts), if ts == [] then 0 else |ts[0]| + 1, 0
  {
    if ts == [] then Found(chosen)
    else Walk(s, ts, rs, chosen, starts, 0, starts[0])
  }

  /**
   * The `for letter in clause` loop over `ts[0]`, at symbol `j` with the local
   * offset `pos` (`pos < 0`: the clause is not anchored yet).
   */
  function Walk(s: string, ts: seq<string>, rs: Enum, chosen: Assignment, starts: seq<int>, j: nat, pos: int): Outcome
    requires Ready(ts, rs, chosen) && |starts| == |ts| && ts != [] && j <= |ts[0]|
    requires pos < 0 ==> starts[0] < 0
    decreases Unbound(ts, chosen), |ts|, Pending(starts), |ts[0]| - j, 0
  {
    if j == |ts[0]| then
      DropClauseKeepsUnbound(ts, chosen);
      Search(s, ts[1..], rs, chosen, starts[1..])
    else
      var c := ts[0][j];
      var x := Resolve(chosen, c);
      UpperMeansUnbound(ts, rs, chosen, j);
      if IsUpperWord(x) then
        BranchBind(s, ts, rs, chosen, starts, c, rs[c])
      else if pos >= 0 then
        if StartsWithAt(s, pos, x) then Walk(s, ts, rs, chosen, starts, j + 1, pos + |x|)
        else Exhausted
      else
        BranchAnchor(s, ts, rs, chosen, starts, FindAll(s, x, 0))
  }

  /** Try each candidate `cands` of the unbound variable `v` in turn, restarting the clause. */
  function BranchBind(s: string, ts: seq<string>, rs: Enum, chosen: Assignment, starts: seq<int>,
                      v: char, cands: seq<string>): Outcome
    requires Ready(ts, rs, chosen) && |starts| == |ts|
    requires v in ClauseVars(ts) && v !in chosen
    requires forall w | w in cands :: w in rs[v]
    decreases Unbound(ts, chosen), 0, 0, 0, |cands|
  {
    if cands == [] then Exhausted
    else
      BindShrinksUnbound(ts, chosen, v, cands[0]);
      match Search(s, ts, rs, chosen[v := cands[0]], starts)
      case Found(a) => Found(a)
      case Exhausted => BranchBind(s, ts, rs, chosen, starts, v, cands[1..])
  }

  /** Try each occurrence offset in `occs` as the anchor of the current clause. */
  function BranchAnchor(s: string, ts: seq<string>, rs: Enum, chosen: Assignment, starts: seq<int>,
                        occs: seq<int>): Outcome
    requires Ready(ts, rs, chosen) && |starts| == |ts| && ts != [] && starts[0] < 0
    requires forall k | 0 <= k < |occs| :: 0 <= occs[k] <= |s|
    decreases Unbound(ts, chosen), |ts|, 1, 0, |occs|
  {
    if occs == [] then Exhausted
    else
      match Search(s, ts, rs, chosen, starts[0 := occs[0]])
      case Found(a) => Found(a)
      case Exhausted => BranchAnchor(s, ts, rs, chosen, starts, occs[1..])
  }
}
