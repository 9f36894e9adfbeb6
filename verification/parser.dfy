/**
 * Reading a problem: the master string, the clause templates and the domain
 * lines `V:w1,w2,...`, each rejected with the first error the source raises.
 * `parse` (parser.py) deduplicates and sorts the clauses and simplifies the
 * domains; `main` (check.py) checks the same things on the clauses as given
 * and hands the unsimplified problem to `A`.
 */
module Parser {
  import opened Wrappers
  import opened Text
  import opened Clauses
  import opened ClauseOrder
  import opened Simplifier
  import opened Engine
  import opened Driver

  /** The `ValueError`s of input checking, each naming what it rejected. */
  datatype ParseError =
    | BadMaster                    // `s` empty or not all lowercase
    | BadClause(clause: string)    // a clause empty or not all ASCII letters
    | MalformedLine(line: string)  // a domain line that does not split into exactly two parts at ':'
    | BadVariable(line: string)    // the part before ':' is not one uppercase letter
    | BadCandidate(line: string)   // some candidate empty or not all lowercase
    | Undeclared(variable: char)   // a clause letter with no domain line

  predicate IsMaster(s: string) { |s| > 0 && AllLower(s) }

  predicate IsClause(t: string) { |t| > 0 && forall i | 0 <= i < |t| :: IsLetter(t[i]) }

  predicate IsCandidate(w: string) { |w| > 0 && AllLower(w) }

  /** The domain line declaring `v` with the candidates `cands`. */
  function FormatDeclaration(v: char, cands: seq<string>): string {
    [v, ':'] + Join(cands, ',')
  }

  /** `get_rs` on one line: split at ':', check the variable, split the candidates at ',' and check each. */
  function Declaration(line: string): (r: Result<(char, set<string>), ParseError>)
    ensures r.Failure? ==> r.error in {MalformedLine(line), BadVariable(line), BadCandidate(line)}
    ensures r == Failure(MalformedLine(line)) <==> Count(line, ':') != 1
    ensures r.Success? ==> IsUpper(r.value.0) && r.value.1 != {}
    ensures r.Success? ==> forall c | c in r.value.1 :: IsCandidate(c)
    ensures r.Success? ==>
              exists cands: seq<string> :: line == FormatDeclaration(r.value.0, cands) && Elems(cands) == r.value.1
  {
    var parts := Split(line, ':');
    if |parts| != 2 then Failure(MalformedLine(line))
    else if |parts[0]| != 1 || !IsUpper(parts[0][0]) then Failure(BadVariable(line))
    else
      var cands := Split(parts[1], ',');
      if exists k | 0 <= k < |cands| :: !IsCandidate(cands[k]) then Failure(BadCandidate(line))
      else
        assert line == FormatDeclaration(parts[0][0], cands) by {
          assert parts[0] == [parts[0][0]];
          assert Join(parts, ':') == parts[0] + [':'] + Join(parts[1..], ':');
          assert parts[1..] == [parts[1]];
        }
        ElemsEmpty(cands);
        Success((parts[0][0], Elems(cands)))
  }

  lemma {:induction false} JoinFree(parts: seq<string>, d: char, x: char)
    requires x != d && forall k | 0 <= k < |parts| :: x !in parts[k]
    ensures x !in Join(parts, d)
  {
    if |parts| > 1 {
      JoinFree(parts[1..], d, x);
    }
  }

  /**
   * Every line with one ':' is some prefix `u`, a ':', and candidates joined
   * with ','; this says what `get_rs` makes of each such line.
   */
  lemma DeclarationOf(u: string, cands: seq<string>)
    requires ':' !in u && |cands| >= 1
    requires forall k | 0 <= k < |cands| :: ':' !in cands[k] && ',' !in cands[k]
    ensures Declaration(u + [':'] + Join(cands, ',')) ==
              if |u| != 1 || !IsUpper(u[0]) then Failure(BadVariable(u + [':'] + Join(cands, ',')))
              else if exists k | 0 <= k < |cands| :: !IsCandidate(cands[k]) then
                Failure(BadCandidate(u + [':'] + Join(cands, ',')))
              else Success((u[0], Elems(cands)))
  {
    var j := Join(cands, ',');
    JoinFree(cands, ',', ':');
    assert Join([u, j], ':') == u + [':'] + j;
    SplitJoin([u, j], ':');
    SplitJoin(cands, ',');
  }

  /** Decoding a well-formed declaration gives back its variable and the set of its candidates. */
  lemma DeclarationRoundTrip(v: char, cands: seq<string>)
    requires IsUpper(v) && |cands| >= 1
    requires forall k | 0 <= k < |cands| :: IsCandidate(cands[k])
    ensures Declaration(FormatDeclaration(v, cands)) == Success((v, Elems(cands)))
  {
    forall k | 0 <= k < |cands|
      ensures ':' !in cands[k] && ',' !in cands[k]
    {
      assert forall i | 0 <= i < |cands[k]| :: cands[k][i] != ':' && cands[k][i] != ',';
    }
    assert FormatDeclaration(v, cands) == [v] + [':'] + Join(cands, ',');
    DeclarationOf([v], cands);
  }

  /** Line `i` declares `v`. */
  predicate DeclaresAt(lines: seq<string>, i: int, v: char)
    requires 0 <= i < |lines|
  {
    Declaration(lines[i]).Success? && Declaration(lines[i]).value.0 == v
  }

  /** No line after `i` declares `v` again. */
  predicate LastFor(lines: seq<string>, i: int, v: char)
    requires 0 <= i < |lines|
  {
    forall j | i < j < |lines| :: !DeclaresAt(lines, j, v)
  }

  /**
   * `dict(get_rs(lines))`: the lines are decoded in order and the first bad
   * one raises; a variable declared on several lines keeps its last domain.
   */
  function Declarations(lines: seq<string>): (r: Result<Domains, ParseError>)
    ensures r.Success? <==> forall i | 0 <= i < |lines| :: Declaration(lines[i]).Success?
    ensures r.Failure? ==>
              exists i | 0 <= i < |lines| ::
                Declaration(lines[i]) == Failure(r.error) && forall j | 0 <= j < i :: Declaration(lines[j]).Success?
  {
    if lines == [] then Success(map[])
    else
      var init := lines[..|lines| - 1];
      var last := lines[|lines| - 1];
      assert forall i | 0 <= i < |init| :: init[i] == lines[i];
      match Declarations(init)
      case Failure(e) => Failure(e)
      case Success(m) =>
        match Declaration(last)
        case Failure(e) => Failure(e)
        case Success(d) => Success(m[d.0 := d.1])
  }

  /** Every variable in the decoded map was declared on some line. */
  lemma {:induction false} DeclaredKeys(lines: seq<string>)
    requires Declarations(lines).Success?
    ensures forall v | v in Declarations(lines).value :: exists i | 0 <= i < |lines| :: DeclaresAt(lines, i, v)
  {
    if lines != [] {
      var init := lines[..|lines| - 1];
      DeclaredKeys(init);
      forall v | v in Declarations(lines).value
        ensures exists i | 0 <= i < |lines| :: DeclaresAt(lines, i, v)
      {
        if !DeclaresAt(lines, |lines| - 1, v) {
          var i :| 0 <= i < |init| && DeclaresAt(init, i, v);
          assert DeclaresAt(lines, i, v);
        }
      }
    }
  }

  /** A variable's domain is the one given on the last line declaring it. */
  lemma {:induction false} LastDeclarationWins(lines: seq<string>, i: int)
    requires Declarations(lines).Success? && 0 <= i < |lines|
    requires LastFor(lines, i, Declaration(lines[i]).value.0)
    ensures Declaration(lines[i]).value.0 in Declarations(lines).value
    ensures Declarations(lines).value[Declaration(lines[i]).value.0] == Declaration(lines[i]).value.1
  {
    var init := lines[..|lines| - 1];
    if i < |lines| - 1 {
      var v := Declaration(lines[i]).value.0;
      assert !DeclaresAt(lines, |lines| - 1, v);
      assert lines[i] == init[i];
      assert LastFor(init, i, v) by {
        forall j | i < j < |init| ensures !DeclaresAt(init, j, v) {
          assert !DeclaresAt(lines, j, v);
        }
      }
      LastDeclarationWins(init, i);
    }
  }

  /** The first clause, in list order, that is not a nonempty string of ASCII letters. */
  function FirstBad(ts: seq<string>): (r: Option<string>)
    ensures r.None? <==> forall k | 0 <= k < |ts| :: IsClause(ts[k])
    ensures r.Some? ==>
              exists k | 0 <= k < |ts| :: ts[k] == r.value && !IsClause(ts[k]) && forall j | 0 <= j < k :: IsClause(ts[j])
  {
    if ts == [] then None
    else if !IsClause(ts[0]) then Some(ts[0])
    else
      var r := FirstBad(ts[1..]);
      if r.Some? then
        var k :| 0 <= k < |ts[1..]| && ts[1..][k] == r.value && !IsClause(ts[1..][k])
                  && forall j | 0 <= j < k :: IsClause(ts[1..][j]);
        assert ts[k + 1] == r.value;
        r
      else r
  }

  /** The first letter of `t` that is not lowercase and has no domain. */
  function FirstUndeclaredIn(t: string, rs: Domains): (r: Option<char>)
    ensures r.None? <==> forall i | 0 <= i < |t| :: IsLower(t[i]) || t[i] in rs
    ensures r.Some? ==> r.value in t && !IsLower(r.value) && r.value !in rs
  {
    if t == [] then None
    else if !IsLower(t[0]) && t[0] !in rs then Some(t[0])
    else
      var r := FirstUndeclaredIn(t[1..], rs);
      assert forall i | 1 <= i < |t| :: t[i] == t[1..][i - 1];
      r
  }

  /** The loop over `"".join(ts)` that rejects a letter without a domain line. */
  function FirstUndeclared(ts: seq<string>, rs: Domains): (r: Option<char>)
    ensures r.None? <==>
              forall k, i | 0 <= k < |ts| && 0 <= i < |ts[k]| :: IsLower(ts[k][i]) || ts[k][i] in rs
    ensures r.Some? ==> !IsLower(r.value) && r.value !in rs && exists k | 0 <= k < |ts| :: r.value in ts[k]
  {
    if ts == [] then None
    else match FirstUndeclaredIn(ts[0], rs)
      case Some(c) => Some(c)
      case None =>
        var r := FirstUndeclared(ts[1..], rs);
        assert forall k | 1 <= k < |ts| :: ts[k] == ts[1..][k - 1];
        r
  }

  /** Over clauses of letters only, the undeclared-letter check passes exactly when every clause variable has a domain. */
  lemma UndeclaredMeansVariable(ts: seq<string>, rs: Domains)
    requires forall k | 0 <= k < |ts| :: IsClause(ts[k])
    ensures FirstUndeclared(ts, rs).None? <==> ClauseVars(ts) <= rs.Keys
    ensures FirstUndeclared(ts, rs).Some? ==> FirstUndeclared(ts, rs).value in ClauseVars(ts)
  {
    forall c | c in ClauseVars(ts) && c !in rs
      ensures FirstUndeclared(ts, rs).Some?
    {
      ClauseVarsMember(ts, c);
      var k :| 0 <= k < |ts| && c in Vars(ts[k]);
      var i :| 0 <= i < |ts[k]| && IsUpper(ts[k][i]) && ts[k][i] == c;
      assert !(IsLower(ts[k][i]) || ts[k][i] in rs);
    }
    if FirstUndeclared(ts, rs).Some? {
      var c := FirstUndeclared(ts, rs).value;
      var k :| 0 <= k < |ts| && c in ts[k];
      var i :| 0 <= i < |ts[k]| && ts[k][i] == c;
      assert IsLetter(ts[k][i]);
      assert c in Vars(ts[k]);
      ClauseVarsMember(ts, c);
    }
  }

  /** Every domain a successful `get_rs` loop produces holds only nonempty lowercase candidates. */
  lemma DeclaredCandidates(lines: seq<string>)
    requires Declarations(lines).Success?
    ensures forall v | v in Declarations(lines).value :: forall c | c in Declarations(lines).value[v] :: IsCandidate(c)
  {
    var m := Declarations(lines).value;
    DeclaredKeys(lines);
    forall v | v in m
      ensures forall c | c in m[v] :: IsCandidate(c)
    {
      var i :| 0 <= i < |lines| && DeclaresAt(lines, i, v);
      var last := LastDeclaration(lines, i, v);
      LastDeclarationWins(lines, last);
    }
  }

  /** The last line declaring a variable that line `i` declares. */
  lemma LastDeclaration(lines: seq<string>, i: int, v: char) returns (last: int)
    requires 0 <= i < |lines| && DeclaresAt(lines, i, v)
    ensures i <= last < |lines| && DeclaresAt(lines, last, v) && LastFor(lines, last, v)
    decreases |lines| - i
  {
    if LastFor(lines, i, v) {
      last := i;
    } else {
      var j :| i < j < |lines| && DeclaresAt(lines, j, v);
      last := LastDeclaration(lines, j, v);
    }
  }

  /**
   * `parse`: check `s`, deduplicate and sort the clauses, check each clause,
   * decode the domain lines, reject undeclared letters, then simplify.
   */
  function Parse(s: string, ts: seq<string>, lines: seq<string>): (r: Result<Problem, ParseError>)
    ensures r == Failure(BadMaster) <==> !IsMaster(s)
    ensures r.Success? <==>
              && IsMaster(s)
              && (forall t | t in ts :: IsClause(t))
              && Declarations(lines).Success?
              && ClauseVars(ts) <= Declarations(lines).value.Keys
    ensures r.Failure? && r.error.BadClause? ==> r.error.clause in ts && !IsClause(r.error.clause)
    ensures r.Failure? && r.error.Undeclared? ==>
              && Declarations(lines).Success?
              && r.error.variable in ClauseVars(ts)
              && r.error.variable !in Declarations(lines).value
    ensures r.Success? ==>
              && r.value.s == s
              && Sorted(r.value.clauses)
              && Elems(r.value.clauses) == Elems(ts)
              && r.value.domains.Keys == ClauseVars(ts)
              && forall v | v in r.value.domains ::
                   forall c :: c in r.value.domains[v] <==> c in Declarations(lines).value[v] && Occurs(s, c)
  {
    if !IsMaster(s) then Failure(BadMaster)
    else
      var clauses := Dedup(ts);
      ClauseVarsByElems(clauses, ts);
      assert forall t | t in ts :: t in Elems(clauses);
      match FirstBad(clauses)
      case Some(t) =>
        assert t in Elems(clauses);
        Failure(BadClause(t))
      case None =>
        match Declarations(lines)
        case Failure(e) => Failure(e)
        case Success(rs) =>
          UndeclaredMeansVariable(clauses, rs);
          match FirstUndeclared(clauses, rs)
          case Some(v) => Failure(Undeclared(v))
          case None => Success(SimplifyProblem(Problem(s, clauses, rs)))
  }

  /** `parse` sees only the set of clauses: repeating or reordering clauses changes nothing. */
  lemma ParseIgnoresRepeats(s: string, ts: seq<string>, us: seq<string>, lines: seq<string>)
    requires Elems(ts) == Elems(us)
    ensures Parse(s, ts, lines) == Parse(s, us, lines)
  {
    DedupBySet(ts, us);
  }

  /** What `parse` returns is ready for `A`. */
  lemma ParsedIsDeclared(s: string, ts: seq<string>, lines: seq<string>)
    requires Parse(s, ts, lines).Success?
    ensures Declared(Parse(s, ts, lines).value.clauses, Parse(s, ts, lines).value.domains)
  {
    ClauseVarsByElems(Parse(s, ts, lines).value.clauses, ts);
    DeclaredCandidates(lines);
  }

  /** The checks of `main`: as in `parse`, but on the clauses as given and without simplifying. */
  function MainChecks(s: string, ts: seq<string>, lines: seq<string>): (r: Result<Problem, ParseError>)
    ensures r == Failure(BadMaster) <==> !IsMaster(s)
    ensures r.Success? <==>
              && IsMaster(s)
              && (forall t | t in ts :: IsClause(t))
              && Declarations(lines).Success?
              && ClauseVars(ts) <= Declarations(lines).value.Keys
    ensures r.Failure? && r.error.BadClause? ==> r.error.clause in ts && !IsClause(r.error.clause)
    ensures r.Success? ==> r.value == Problem(s, ts, Declarations(lines).value)
  {
    if !IsMaster(s) then Failure(BadMaster)
    else match FirstBad(ts)
      case Some(t) => Failure(BadClause(t))
      case None =>
        match Declarations(lines)
        case Failure(e) => Failure(e)
        case Success(rs) =>
          UndeclaredMeansVariable(ts, rs);
          match FirstUndeclared(ts, rs)
          case Some(v) => Failure(Undeclared(v))
          case None => Success(Problem(s, ts, rs))
  }

  /**
   * End to end: on any input `main` accepts, `A` never reaches the
   * validator's `ValueError`, reports only true solutions, and, when some
   * clause has a variable, finds one exactly when one exists.
   */
  lemma MainDecides(s: string, ts: seq<string>, lines: seq<string>, order: Enum)
    requires MainChecks(s, ts, lines).Success?
    requires Lists(order, MainChecks(s, ts, lines).value.domains)
    ensures Declared(ts, MainChecks(s, ts, lines).value.domains)
    ensures
      var rs := MainChecks(s, ts, lines).value.domains;
      && Solve(s, ts, rs, order) != Fault
      && (Solve(s, ts, rs, order).Solution? ==> IsSolution(s, ts, rs, Solve(s, ts, rs, order).assignment))
      && (ClauseVars(ts) != {} ==> (Solve(s, ts, rs, order).Solution? <==> exists a :: IsSolution(s, ts, rs, a)))
  {
    var rs := MainChecks(s, ts, lines).value.domains;
    DeclaredCandidates(lines);
    SolveSound(s, ts, rs, order);
    if ClauseVars(ts) != {} {
      SolveComplete(s, ts, rs, order);
    }
  }
}
