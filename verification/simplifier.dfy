/**
 * Problem pre-processing shared by `simplify_problem` and the start of `A`:
 * drop candidates that do not occur in `s`, then drop variables that no
 * clause mentions.
 */
module Simplifier {
  import opened Text
  import opened Clauses

  /** The validated triple handed to the solver. */
  datatype Problem = Problem(s: string, clauses: seq<string>, domains: Domains)

  /** The pruned domains. */
  function Prune(s: string, ts: seq<string>, rs: Domains): (r: Domains)
    // remaining keys are declared and referenced
    ensures forall v | v in r :: v in rs && v in ClauseVars(ts)
    // remaining candidates come from the original domain and occur in `s`
    ensures forall v | v in r :: forall c | c in r[v] :: c in rs[v] && Occurs(s, c)
    // nothing useful is lost: a referenced variable keeps every candidate that occurs in `s`
    ensures forall v | v in rs && v in ClauseVars(ts) ::
              v in r && forall c | c in rs[v] && Occurs(s, c) :: c in r[v]
  {
    map v | v in rs && v in ClauseVars(ts) :: set c | c in rs[v] && Occurs(s, c)
  }

  /** `simplify_problem`: only the domains change, and they do not get checked for emptiness. */
  function SimplifyProblem(p: Problem): (r: Problem)
    ensures r.s == p.s && r.clauses == p.clauses
    ensures r.domains.Keys == p.domains.Keys * ClauseVars(p.clauses)
    ensures forall v | v in r.domains :: r.domains[v] <= p.domains[v]
    ensures forall v | v in r.domains :: forall c | c in r.domains[v] :: Occurs(p.s, c)
  {
    Problem(p.s, p.clauses, Prune(p.s, p.clauses, p.domains))
  }

  /** Simplifying twice is simplifying once. */
  lemma SimplifyIdempotent(p: Problem)
    ensures SimplifyProblem(SimplifyProblem(p)) == SimplifyProblem(p)
  {
    var once := SimplifyProblem(p);
    var twice := SimplifyProblem(once);
    assert twice.domains.Keys == once.domains.Keys;
    forall v | v in once.domains
      ensures twice.domains[v] == once.domains[v]
    {
    }
    assert twice.domains == once.domains;
  }

  /** Pruning neither adds nor removes solutions. */
  lemma PrunePreservesSolutions(s: string, ts: seq<string>, rs: Domains, a: Assignment)
    ensures IsSolution(s, ts, rs, a) <==> IsSolution(s, ts, Prune(s, ts, rs), a)
  {
    var r := Prune(s, ts, rs);
    if IsSolution(s, ts, rs, a) {
      forall v | v in a
        ensures v in r && a[v] in r[v]
      {
        SolutionValuesOccur(s, ts, rs, a, v);
      }
    }
  }

  /** Unlike `A`, simplification keeps a referenced variable whose domain has emptied. */
  lemma SimplifyKeepsEmptyDomain()
    ensures SimplifyProblem(Problem("abc", ["Ax"], map['A' := {"d", "e"}])).domains == map['A' := {}]
  {
    var p := Problem("abc", ["Ax"], map['A' := {"d", "e"}]);
    assert "Ax"[0] == 'A' && IsUpper("Ax"[0]);
    assert 'A' in Vars("Ax");
    assert ClauseVars(p.clauses) == Vars("Ax");
    OccursChar("abc", 'd');
    OccursChar("abc", 'e');
    assert "d" == ['d'] && "e" == ['e'];
    assert Prune(p.s, p.clauses, p.domains)['A'] == {};
  }
}
