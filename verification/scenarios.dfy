/** Two worked examples, stated about the model. */
module Scenarios {
  import opened Text
  import opened Clauses
  import opened Engine
  import opened Driver

  /** The domains of the single-solution example: `A` is `b` or `x`, `B` is `b` or `z`. */
  function TwoVarDomains(): Domains {
    map['A' := {"b", "x"}, 'B' := {"b", "z"}]
  }

  lemma TwoVarClauseVars()
    ensures ClauseVars(["aA", "Bc"]) == {'A', 'B'}
  {
    var ts: seq<string> := ["aA", "Bc"];
    assert Vars(ts[0]) == {'A'} by {
      assert ts[0][1] == 'A' && !IsUpper(ts[0][0]);
    }
    assert Vars(ts[1]) == {'B'} by {
      assert ts[1][0] == 'B' && !IsUpper(ts[1][1]);
    }
    assert ClauseVars(ts[1..][1..]) == {};
  }

  /** In "abcde", "ab" and "bc" occur but "ax" and "zc" do not. */
  lemma TwoVarOccurrences()
    ensures Occurs("abcde", "ab") && Occurs("abcde", "bc")
    ensures !Occurs("abcde", "ax") && !Occurs("abcde", "zc")
  {
    var s: string := "abcde";
    assert s[0..2] == "ab" && s[1..3] == "bc";
    assert OccursAt(s, "ab", 0) && OccursAt(s, "bc", 1);
    forall i | 0 <= i <= 3
      ensures !OccursAt(s, "ax", i) && !OccursAt(s, "zc", i)
    {
      assert s[i..i + 2][1] == s[i + 1] && s[i..i + 2][0] == s[i];
    }
  }

  /** The one assignment that solves the example. */
  lemma TwoVarOnlySolution(a: Assignment)
    ensures IsSolution("abcde", ["aA", "Bc"], TwoVarDomains(), a) <==> a == map['A' := "b", 'B' := "b"]
  {
    var ts: seq<string> := ["aA", "Bc"];
    TwoVarClauseVars();
    TwoVarOccurrences();
    if a.Keys == {'A', 'B'} {
      assert Substitute(ts[0], a) == "a" + a['A'] by {
        assert Substitute(ts[0][1..][1..], a) == [];
      }
      assert Substitute(ts[1], a) == a['B'] + "c" by {
        assert Substitute(ts[1][1..][1..], a) == [];
      }
    }
    var b := map['A' := "b", 'B' := "b"];
    assert Substitute(ts[0], b) == "ab" by {
      assert Substitute(ts[0][1..][1..], b) == [];
    }
    assert Substitute(ts[1], b) == "bc" by {
      assert Substitute(ts[1][1..][1..], b) == [];
    }
    if IsSolution("abcde", ts, TwoVarDomains(), a) {
      assert Occurs("abcde", Substitute(ts[0], a)) && Occurs("abcde", Substitute(ts[1], a));
      assert a['A'] in {"b", "x"} && a['B'] in {"b", "z"};
      assert "a" + "x" == "ax" && "z" + "c" == "zc";
      assert a['A'] == "b" && a['B'] == "b";
      assert a == b;
    }
  }

  /**
   * `A` reports `{A: b, B: b}` whatever order it tries the candidates in:
   * with one solution, the seed that wins the race cannot change the answer.
   */
  lemma TwoVarScenario(order: Enum)
    requires Lists(order, TwoVarDomains())
    ensures Solve("abcde", ["aA", "Bc"], TwoVarDomains(), order) == Solution(map['A' := "b", 'B' := "b"])
  {
    var s: string := "abcde";
    var ts: seq<string> := ["aA", "Bc"];
    var rs := TwoVarDomains();
    TwoVarClauseVars();
    TwoVarOnlySolution(map['A' := "b", 'B' := "b"]);
    assert Declared(ts, rs) by {
      forall v, c | v in rs && c in rs[v] ensures AllLower(c) {
        assert c in {"b", "x", "z"};
      }
    }
    SolveComplete(s, ts, rs, order);
    SolveSound(s, ts, rs, order);
    TwoVarOnlySolution(Solve(s, ts, rs, order).assignment);
  }

  /** `A` reports an emptied domain for "abc", ["Ax"], A: {d, e}, before any search. */
  lemma PrunedAwayScenario(order: Enum)
    requires Lists(order, map['A' := {"d", "e"}])
    ensures Solve("abc", ["Ax"], map['A' := {"d", "e"}], order) == EmptyDomain
  {
    var s: string := "abc";
    var ts: seq<string> := ["Ax"];
    var rs: Domains := map['A' := {"d", "e"}];
    assert Vars(ts[0]) == {'A'} by {
      assert ts[0][0] == 'A' && !IsUpper(ts[0][1]);
    }
    assert ClauseVars(ts) == {'A'} by {
      assert ClauseVars(ts[1..]) == {};
    }
    OccursChar(s, 'd');
    OccursChar(s, 'e');
    assert forall c | c in rs['A'] :: !Occurs(s, c) by {
      assert "d" == ['d'] && "e" == ['e'];
    }
    assert Declared(ts, rs) by {
      forall v, c | v in rs && c in rs[v] ensures AllLower(c) {
        assert c in {"d", "e"};
      }
    }
    SolveEmptyDomain(s, ts, rs, order);
  }
}
