# Substring-with-variables solver, modelled in Dafny

The repository decides a string-embedding problem. The input is a master string `s` of lowercase letters, clause templates mixing lowercase letters with uppercase variables, and for each variable a domain of lowercase candidate strings. The question is whether some assignment of one candidate per variable turns every clause into a substring of `s`.

This project models, as pure functions:

- the input checks and preprocessing of `parser.py` and of `main`/`get_rs` in `check.py`;
- the pruning of the domains (`simplify_problem`, and its copy inside `A`);
- the backtracking search `_A`, with its occurrence enumeration `findall`;
- the driver `A`, which prunes, gives up on an emptied domain, splits on the first variable, searches and re-checks the answer with `str.replace`.

It proves termination, soundness, completeness, the validator's agreement with the search, the parser's rejection conditions and the clause ordering.

Modules, one per component:

- `Text` (`text.dfy`): the Python string operations used: `find`, `findall`, `startswith` at an offset, `split`, `isupper`, `in`.
- `Clauses` (`clauses.dfy`): clause variables, substitution, and what a solution is.
- `Engine` (`engine.dfy`): `_A` as four mutually recursive functions with an explicit termination measure.
  - `Search` loops over the clauses.
  - `Walk` moves over the symbols of one clause.
  - `BranchBind` branches over a domain.
  - `BranchAnchor` branches over the occurrences of a literal.
  - The raised `ResultFound` becomes `Found(assignment)`, and a returned `False` becomes `Exhausted`.
  - These functions carry no contract beyond termination. Their properties are the lemmas of `EngineProofs` (`engine_proofs.dfy`).
- `Validator` (`validator.dfy`): the `str.replace` re-check of check.py:130-139.
- `Simplifier` (`simplifier.dfy`): domain pruning and `simplify_problem`.
- `Driver` (`driver.dfy`): `A`, as written (`Solve`) and corrected (`SolveCorrected`, see Findings).
- `ClauseOrder` (`order.dfy`): `sorted(set(ts), key=lambda c: (-len(c), c))`.
- `Parser` (`parser.py` and `main`), in `parser.dfy`.
- `Scenarios` (`scenarios.dfy`): two worked examples.

Domains are sets. The source iterates them in Python's set order, which the program does not control. `Engine` therefore takes an enumeration `map<char, seq<string>>` of every domain, and every property about `A` holds for every enumeration (`Driver.Lists`).

The process pool of check.py:118-127 is modelled sequentially: the seeds are tried in enumeration order and the first `Found` is reported. Whichever seed wins the race in the source, its answer satisfies the same properties.

Where the documented behaviour and the code differ, the model follows the code:

- `A` returns a bare `False` when pruning empties a domain (check.py:109), modelled as `EmptyDomain`. This is distinct from `(False, None)` after an exhausted search, modelled as `NoSolution`.
- `A` raises `StopIteration` when no clause has a variable (check.py:119), modelled as `NoVariable`.
- A variable declared on several domain lines keeps its last domain, because `dict` keeps the last pair.

## Model

| member | source | states |
|---|---|---|
| Text.Find | check.py:28-31 | `str.find` from an offset: -1, or the least offset at or after it where the pattern occurs |
| Text.FindAll | check.py:27-32 | `findall` yields exactly the offsets at or after the start where the pattern occurs, overlapping ones included, strictly increasing |
| Text.StartsWithAtIsOccursAt | check.py:62 | `s[pos:].startswith(x)` holds exactly when `x` occurs in `s` at `pos` |
| Text.Split | parser.py:17-18 | `str.split(d)` gives one more piece than there are separators, no piece holds the separator, and joining the pieces gives back the line |
| Text.SplitJoin | parser.py:17-18 | splitting a join of separator-free pieces gives back the pieces |
| Clauses.ClauseVarsMember | check.py:102 | a character is a clause variable exactly when it is an uppercase letter of some clause |
| Clauses.FirstVar | check.py:119 | the variable `A` splits on is missing exactly when no clause has a variable; otherwise it is a clause variable |
| Clauses.FirstUpperIsFirst | check.py:119 | the letter found in one clause is its leftmost uppercase character |
| Clauses.FirstVarIsFirst | check.py:119 | the variable found is the first uppercase letter of the first clause that has one, so the first of `"".join(ts)` |
| Clauses.SolutionValuesOccur | check.py:94-98 | in any solution every chosen candidate itself occurs in `s`, which is why pruning candidates that do not occur is safe |
| Engine.UpperMeansUnbound | check.py:46-49 | `chosen.get(letter, letter).isupper()` holds exactly when the symbol is an unbound uppercase variable, and then it has a domain |
| Engine.BindShrinksUnbound | check.py:52-55 | binding a branch variable strictly decreases the number of unbound clause variables: the first component of the termination measure |
| Engine.DropClauseKeepsUnbound | check.py:76-77 | dropping a finished clause never increases the number of unbound clause variables, while the clause count drops |
| EngineProofs.SearchSound | check.py:38-80 | a `Found` assignment extends the bindings so far, binds every clause variable to a candidate of its domain, and makes every clause occur in `s`, at its anchor when one is recorded |
| EngineProofs.WalkSound | check.py:45-77 | the same for the walk over one clause from any symbol and offset: the matched prefix sits at the anchor |
| EngineProofs.FinishSound | check.py:75-77 | a `Found` after the last symbol of a clause makes that clause occur at its anchor and solves the remaining clauses |
| EngineProofs.BranchBindSound | check.py:49-56 | a `Found` from branching over a domain binds the branch variable to a candidate of that domain and is sound |
| EngineProofs.BranchAnchorSound | check.py:67-73 | a `Found` from branching over the occurrences of a literal anchors the clause at one of them and is sound |
| EngineProofs.WalkBoundClause | check.py:59-66 | at a known anchor, once every variable of the rest of the clause is bound, the walk continues with the next clause exactly when the substituted rest occurs at the offset, and otherwise ends the branch |
| EngineProofs.SearchComplete | check.py:38-80 | if some assignment extending the bindings solves the remaining clauses from the domains, respecting recorded anchors, the search finds one |
| EngineProofs.WalkComplete | check.py:45-77 | the same for the walk over one clause at a known offset, given a witness whose substituted remainder of the clause occurs at that offset |
| EngineProofs.BindStepComplete | check.py:49-56 | at an unbound variable, a witness's candidate is among the branches, so the branch over the domain finds a solution |
| EngineProofs.AnchorStepComplete | check.py:67-73 | at an unanchored clause, the witness's occurrence is among the offsets `findall` lists, so the branch over them finds a solution |
| EngineProofs.FinishComplete | check.py:75-77 | a witness for a finished clause is a witness for the remaining clauses |
| EngineProofs.BranchBindComplete | check.py:49-56 | if a witness binds the branch variable to one of the listed candidates, the branch over them finds a solution |
| EngineProofs.BranchAnchorComplete | check.py:67-73 | if a witness's clause occurs at one of the listed offsets, the branch over them finds a solution |
| Validator.Replace | check.py:134 | `str.replace` with a one-character pattern: every occurrence replaced, the rest kept |
| Validator.SortedKeys | check.py:80 | `sorted(chosen.items())` visits every uppercase key of the assignment once, in ascending order |
| Validator.ReplaceAllIsSubstitute | check.py:131-134 | replacing variables one at a time, in any order that covers the keys, equals per-symbol substitution when no value contains a key |
| Validator.RewriteIsSubstitute | check.py:130-134 | the validator's rewrite of a clause equals the search's substitution for an assignment of lowercase values to uppercase keys |
| Validator.ValidatesSolution | check.py:130-139 | the validator accepts every solution with lowercase values, so its `ValueError` is never raised for one |
| Simplifier.Prune | check.py:93-105 | remaining keys are declared and referenced, remaining candidates come from the domain and occur in `s`, and a referenced variable keeps every candidate that occurs |
| Simplifier.SimplifyProblem | parser.py:30-48 | `s` and the clauses are unchanged; the keys are the referenced declared ones; the candidates are a subset that occur in `s` |
| Simplifier.SimplifyIdempotent | parser.py:30-48 | simplifying twice is simplifying once |
| Simplifier.PrunePreservesSolutions | check.py:93-105 | pruning neither adds nor removes solutions |
| Simplifier.SimplifyKeepsEmptyDomain | parser.py:30-48 | unlike `A`, `simplify_problem` does not reject an emptied domain: "abc", ["Ax"], A: {d, e} keeps A with no candidates |
| Driver.Keep | check.py:94-98 | filtering an enumeration keeps exactly the candidates that survive pruning |
| Driver.PrunedReady | check.py:102-120 | after pruning, the keys are exactly the clause variables, and the search's precondition holds from the empty state |
| Driver.PruneEmptiesDomain | check.py:93-109 | some pruned domain is empty exactly when a referenced variable has no candidate occurring in `s` |
| Driver.SolveEmptyDomain | check.py:107-109 | `A` answers with the bare `False` exactly when some referenced variable has no candidate occurring in `s`; an empty domain of an unreferenced variable is harmless |
| Driver.SolveSound | check.py:118-140 | a reported solution solves the original problem, and the validator's `ValueError` is never reached |
| Driver.SolveComplete | check.py:118-129 | when some clause has a variable, `A` reports a solution exactly when one exists |
| Driver.SolveNoVariable | check.py:119 | `A` as written fails with `StopIteration` exactly when no clause has a variable |
| Driver.NoVariableCounterexample | check.py:119 | "cabac", ["ab", "ba"] with no domains has a solution, yet `A` as written fails on it |
| Driver.FoundIsSolution | check.py:80 | an assignment the search reports from the empty state solves the original problem and passes validation |
| Driver.SolutionIsWitness | check.py:93-120 | a solution of the original problem survives pruning and witnesses the search from the empty state |
| Driver.SolutionValidates | check.py:130-139 | every solution of a parsed problem passes the `str.replace` re-check |
| Driver.UnseededDecides | check.py:128 | the single unseeded search from the empty state finds an assignment exactly when a solution exists |
| Driver.SeededDecides | check.py:119-126 | the union of the searches seeded with each candidate of the first variable finds an assignment exactly when a solution exists |
| Driver.SeededSplitAgrees | check.py:119-128 | splitting on the first variable loses nothing: the seeded union succeeds exactly when the unseeded search does |
| Driver.SolveCorrectedDecides | check.py:118-140 | the corrected `A` never faults or fails for lack of a variable, and reports a solution exactly when one exists |
| Driver.SolveCorrectedAgrees | check.py:119-128 | the correction changes only the case where `A` as written fails for lack of a variable |
| ClauseOrder.BeforeIsStrictTotal | parser.py:67 | the key `(-len(c), c)` orders clauses strictly and totally, so the sorted order of a set is unique |
| ClauseOrder.Insert | parser.py:67 | inserting into a sorted duplicate-free list keeps it so and adds exactly the new clause |
| ClauseOrder.Dedup | parser.py:67 | `sorted(set(ts), key=...)` is sorted by length descending then alphabetically and holds the same clauses as the input |
| ClauseOrder.SortedUnique | parser.py:67 | two sorted lists with the same clauses are equal: the result of the sort is determined by the set |
| ClauseOrder.DedupBySet | parser.py:66-67 | repeating or reordering input clauses does not change the deduplicated list |
| ClauseOrder.DedupIdempotent | parser.py:67 | deduplicating twice is deduplicating once |
| ClauseOrder.DedupCount | parser.py:67-70 | no clause appears twice, and the list is exactly as long as the set of input clauses |
| Parser.Declaration | parser.py:14-27 | a domain line is rejected as malformed exactly when it does not have one ':'; it is otherwise rejected for a bad variable or a bad candidate; on success it yields an uppercase variable and a nonempty set of nonempty lowercase candidates that the line lists |
| Parser.DeclarationOf | parser.py:17-25 | a line `u:c1,...,cn` is rejected for its variable exactly when `u` is not one uppercase letter; otherwise it is rejected for a candidate exactly when some `ci` is empty or not lowercase; otherwise it yields `u` and the set of the `ci` |
| Parser.DeclarationRoundTrip | parser.py:14-27 | decoding a well-formed declaration gives back its variable and the set of its candidates |
| Parser.Declarations | parser.py:78 | `dict(get_rs(lines))` succeeds exactly when every line decodes, and otherwise raises the error of the first bad line |
| Parser.DeclaredKeys | parser.py:78 | every variable in the decoded map is declared on some line |
| Parser.LastDeclarationWins | parser.py:78 | a variable's domain is the one on the last line that declares it |
| Parser.DeclaredCandidates | parser.py:23-27 | every decoded domain holds only nonempty lowercase candidates |
| Parser.FirstBad | parser.py:72-74 | the clause check passes exactly when every clause is a nonempty string of ASCII letters, and otherwise names the first clause that is not |
| Parser.FirstUndeclaredIn | parser.py:81-85 | within one clause, the check passes exactly when every letter is lowercase or declared, and otherwise names an undeclared non-lowercase letter of the clause |
| Parser.FirstUndeclared | parser.py:81-85 | over all clauses, the check passes exactly when every letter is lowercase or declared, and otherwise names an undeclared non-lowercase letter of some clause |
| Parser.UndeclaredMeansVariable | parser.py:81-85 | over clauses of letters only, the check passes exactly when every clause variable has a domain, and an offending letter is a clause variable |
| Parser.Parse | parser.py:51-88 | `s` is rejected exactly when empty or not lowercase. The result is a success exactly when `s`, every clause and every domain line are well formed and every clause variable is declared. A rejected clause is one of the input's bad clauses, and an undeclared letter is a clause variable with no domain line. On success `s` is unchanged, the clauses are sorted and are the input's clauses, and the domains are the declared ones restricted to clause variables and to candidates occurring in `s` |
| Parser.ParseIgnoresRepeats | parser.py:66-70 | appending a duplicate clause, or reordering clauses, does not change what `parse` returns |
| Parser.ParsedIsDeclared | parser.py:78-88 | on success every clause variable has a domain, and every candidate is lowercase |
| Parser.MainChecks | check.py:164-197 | `main` rejects exactly what `parse` rejects, checking the clauses as given, and passes the declared domains unchanged |
| Parser.MainDecides | check.py:164-197 | on every input `main` accepts, `A` never reaches its `ValueError` and reports only solutions; when some clause has a variable, it reports one exactly when one exists |
| Scenarios.TwoVarOnlySolution | check.py:83-90 | "abcde", ["aA", "Bc"], A: {b, x}, B: {b, z} has exactly the solution A = b, B = b |
| Scenarios.TwoVarScenario | check.py:83-140 | on that problem `A` reports A = b, B = b in every candidate order, so the seed that wins the race cannot change the answer |
| Scenarios.PrunedAwayScenario | check.py:93-109 | on "abc", ["Ax"], A: {d, e} `A` answers with the bare `False` before any search |

## Left out

- Process pool (check.py:118, 122, 126-127, 143-145): concurrency is modelled as a sequential scan over the seeds. Cancellation, `terminate` and `join` have no counterpart.
- Logging, timing and the difficulty product (check.py:111-116, 122, 127, 130, 136, 138; parser.py:47, 53, 69, 87): diagnostics only.
- File I/O and the command line (check.py:200-224).
- Reading `k` with `int(...)` and `StopIteration` on short input (check.py:169-171, 179; parser.py:55-58, 61, 66): the model takes `s`, the list of clauses and the list of domain lines as already split inputs.
- Candidate iteration order: Python's set order is a parameter (`Driver.Lists`). Every property is stated for all orders, and none says which solution comes first when several exist.
- Non-ASCII text: `str.isupper` and the character classes are modelled on ASCII letters only. The parser rejects other characters before `A` runs.
- The key order of the returned `OrderedDict` (check.py:80): an assignment is a map. The sorted iteration the validator relies on is `Validator.SortedKeys`.
- The exact exception messages: each `ValueError` of input checking is one constructor of `Parser.ParseError`.
- Engine.Search, Engine.Walk, Engine.BranchBind and Engine.BranchAnchor carry no ensures of their own. Their behaviour is stated by the `EngineProofs` lemmas listed above.
- Driver.Solve and Driver.SolveCorrected (`A` as written and corrected, check.py:83-145) carry no ensures of their own. Their behaviour is stated by the `Driver` lemmas listed above: `SolveEmptyDomain`, `SolveSound`, `SolveComplete`, `SolveNoVariable` and `SolveCorrectedDecides`.
- Validator.ReplaceAll, Validator.Rewrite and Validator.Validates (the validation loop, check.py:131-139) carry no ensures of their own. Their behaviour is stated by `ReplaceAllIsSubstitute`, `RewriteIsSubstitute` and `ValidatesSolution`.
- Python's recursion limit: `_A` recurses once per binding and once per anchoring (check.py:55, 72), so the source raises `RecursionError` on an input needing about a thousand nested calls. The model has no depth bound and always answers.

## Findings

| source | as written | input that shows it | evidently intended | confidence | as-written member | corrected member |
|---|---|---|---|---|---|---|
| check.py:119 | `next(filter(str.isupper, "".join(ts)))` raises `StopIteration` when no clause has a variable, so `A` crashes instead of answering | `s = "cabac"`, clauses `["ab", "ba"]`, no domain lines: both clauses occur, so the problem is satisfiable | run the unseeded search when there is nothing to split on (the line left commented out at check.py:128), answering `(True, {})` or `(False, None)` | not executed | Driver.NoVariableCounterexample | Driver.SolveCorrectedDecides |
