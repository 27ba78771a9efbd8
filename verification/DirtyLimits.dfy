/** The two premises of a believable UNDER-FIRING verdict are needed: programs for which the round cap
  or a nested aggregate notice makes the analysis of scripts/gen_pipe_dirty_surface.py miss a write. */
module DirtyLimits {
  import opened DirtyModel
  import opened DirtyVerdicts

  // ---- nested notices -----------------------------------------------------------------------

  const SHUTTER: set<Token> := {Member("m"), FieldOf("m", "x")}

  /** A mutator notices aggregate A, whose notice notices B, whose notice writes the field the shutter
      compares. */
  const NESTED := Program(
    ["set", "noteA", "noteB"],
    map["set" := [], "noteA" := [], "noteB" := []],
    map["set" := {Aggregate("A")}, "noteA" := {Aggregate("B")}, "noteB" := SHUTTER])

  const NESTED_CASES := [Case("A", ["noteA"]), Case("B", ["noteB"])]

  lemma NestedIsExact()
    ensures WellFormed(NESTED) && Exact(NESTED, NESTED.own)
  {
    assert NESTED.order[0] == "set" && NESTED.order[1] == "noteA" && NESTED.order[2] == "noteB";
    NoCallsIsExact(NESTED);
  }

  lemma NoCallsIsExact(p: Program)
    requires WellFormed(p) && forall f :: f in p.calls ==> p.calls[f] == []
    ensures Exact(p, p.own)
  {
    forall f, t | f in p.own ensures t in p.own[f] <==> Attributed(p, f, t) {
      ReachesItself(p, f);
      forall g | Reaches(p, f, g) ensures g == f {
        var chain: seq<Name> :| CallChain(p, chain) && chain[0] == f && chain[|chain| - 1] == g;
        assert |chain| > 1 ==> Calls(p, chain[0], chain[1]);
      }
    }
  }

  /** After one expansion only the nested notice is left, and it names no member. */
  lemma NestedExpansion()
    ensures Members(Expanded(NESTED.own["set"], NESTED.own, NESTED_CASES)) == {}
  {
    var own := NESTED.own;
    forall t | t in CaseTokens(own, NESTED_CASES, "A") ensures t.Aggregate? {
      var i, c :| 0 <= i < |NESTED_CASES| && NESTED_CASES[i].aggregate == "A" && c in NESTED_CASES[i].callees &&
        t in Get(own, c);
      assert "A" != "B";
      assert i == 0;
    }
    hide CaseTokens;
    assert own["set"] == {Aggregate("A")};
  }

  lemma NestedRuns()
    ensures Runs(NESTED, NESTED_CASES, "set", "noteB")
  {
    assert NESTED_CASES[0] == Case("A", ["noteA"]) && NESTED_CASES[1] == Case("B", ["noteB"]);
    assert "noteA" in NESTED_CASES[0].callees && "noteB" in NESTED_CASES[1].callees;
    assert Notifies(NESTED, NESTED_CASES, "set", "noteA");
    assert Notifies(NESTED, NESTED_CASES, "noteA", "noteB");
    assert RunChain(NESTED, NESTED_CASES, ["set", "noteA", "noteB"]);
  }

  /** An expansion that is not settled: the rule answers UNDER-FIRING although what runs under the
      mutator writes exactly the field the shutter reads. */
  lemma NestedNoticesMislead()
    ensures WellFormed(NESTED) && Exact(NESTED, NESTED.own)
    ensures Match(Expanded(NESTED.own["set"], NESTED.own, NESTED_CASES), SHUTTER) == UnderFiring
    ensures Runs(NESTED, NESTED_CASES, "set", "noteB") && NESTED.own["noteB"] == SHUTTER
  {
    NestedIsExact();
    NestedExpansion();
    NestedRuns();
    hide Exact, Expanded, Runs;
  }

  /** Nesting alone does no harm: here the outer notice writes the field itself. */
  const COVERED := NESTED.(own := NESTED.own["noteA" := SHUTTER + {Aggregate("B")}])

  lemma NestedYetSettled()
    ensures !NoNestedNotices(COVERED.own, NESTED_CASES) && Settled(COVERED.own, NESTED_CASES)
  {
    hide CaseTokens;
    var own := COVERED.own;
    assert Aggregate("B") in Get(own, "noteA") && "noteA" in NESTED_CASES[0].callees;
    forall f, a, b, t | f in own && WrittenTwoDeep(own[f], own, NESTED_CASES, a, b, t) && !t.Aggregate?
      ensures t in Expanded(own[f], own, NESTED_CASES)
    {
      CoveredCase(a, Aggregate(b));
      CoveredCase(b, t);
      CoveredCase(a, t);
    }
  }

  lemma CoveredCase(a: string, t: Token)
    ensures t in CaseTokens(COVERED.own, NESTED_CASES, a) <==>
      (a == "A" && t in COVERED.own["noteA"]) || (a == "B" && t in SHUTTER)
  {
    var own := COVERED.own;
    var first, second := NESTED_CASES[0], NESTED_CASES[1];
    assert first == Case("A", ["noteA"]) && second == Case("B", ["noteB"]);
    assert "noteA" in first.callees && "noteB" in second.callees;
    assert Get(own, "noteA") == own["noteA"] && Get(own, "noteB") == SHUTTER;
  }

  // ---- the round cap ------------------------------------------------------------------------

  function ChainName(i: nat): Name {
    seq(i, _ => 'f')
  }

  /** n functions, each calling the next and writing a member of its own, listed caller first. */
  function ChainProgram(n: nat): Program {
    var names := set i: nat | 0 <= i < n :: ChainName(i);
    Program(seq(n, i requires 0 <= i < n => ChainName(i)),
            map f | f in names :: if |f| + 1 < n then [ChainName(|f| + 1)] else [],
            map f | f in names :: {Member(f)})
  }

  ghost predicate IsChain(p: Program, n: nat) {
    && WellFormed(p) && |p.order| == n
    && (forall i :: 0 <= i < n ==> p.order[i] == ChainName(i))
    && (forall f :: f in p.own ==> |f| < n && f == ChainName(|f|) && p.own[f] == {Member(f)})
    && (forall f :: f in p.calls ==> p.calls[f] == if |f| + 1 < n then [ChainName(|f| + 1)] else [])
  }

  lemma ChainProgramIsChain(n: nat)
    ensures IsChain(ChainProgram(n), n)
  {
    hide ChainName, WellFormed;
    ChainNames();
    ChainProgramIsWellFormed(n);
    assert forall f :: f in ChainProgram(n).own ==> exists i: nat :: i < n && f == ChainName(i);
  }

  lemma ChainProgramIsWellFormed(n: nat)
    ensures WellFormed(ChainProgram(n))
  {
    hide ChainName;
    ChainNames();
    var order := ChainProgram(n).order;
    var names := set i: nat | 0 <= i < n :: ChainName(i);
    forall f ensures f in names <==> f in order {
      if f in names {
        var i: nat :| 0 <= i < n && f == ChainName(i);
        assert order[i] == f;
      }
    }
    assert names == (set f | f in order);
  }

  lemma ChainNames()
    ensures forall i: nat :: |ChainName(i)| == i
  {
  }

  /** In the chain every call goes to the next name of the list, so each costs a round. */
  lemma {:induction false} ChainDelay(p: Program, n: nat, chain: seq<Name>)
    requires IsChain(p, n) && CallChain(p, chain)
    ensures |chain[|chain| - 1]| == |chain[0]| + |chain| - 1
    ensures Delay(p, chain) == |chain| - 1
  {
    hide IsChain, Before, Calls;
    if |chain| > 1 {
      ChainRest(p, chain);
      ChainDelay(p, n, chain[1..]);
      ChainCall(p, n, chain[0], chain[1]);
    }
  }

  lemma ChainCall(p: Program, n: nat, f: Name, g: Name)
    requires IsChain(p, n) && f in p.own && Calls(p, f, g)
    ensures |g| == |f| + 1 && Before(p, f, g)
  {
    hide ChainName, WellFormed;
    ChainNames();
    assert |g| == |f| + 1;
    assert p.order[|g|] == g && p.order[..|g|][|f|] == f;
  }

  /** The cap can bite: for every number of rounds there is a program one call deeper for which they are
      not enough. */
  lemma {:induction false} CapIsTight(r: nat)
    ensures WellFormed(ChainProgram(r + 2)) && !Exact(ChainProgram(r + 2), Rounds(ChainProgram(r + 2), r))
  {
    hide Rounds, ChainName, ChainProgram, Exact, WellFormed;
    var n := r + 2;
    var p := ChainProgram(n);
    ChainProgramIsChain(n);
    ChainNames();
    ChainIsWellFormed(p, n);
    var first, last := ChainName(0), ChainName(n - 1);
    ChainReaches(p, n);
    if Timely(p, r) {
      var chain: seq<Name> :| Brings(p, first, Member(last), r, chain);
      ChainDelay(p, n, chain);
      assert false;
    }
    ExactWhenTimely(p, r);
  }

  lemma ChainIsWellFormed(p: Program, n: nat)
    requires IsChain(p, n)
    ensures WellFormed(p)
  {
  }

  lemma ChainReaches(p: Program, n: nat)
    requires IsChain(p, n) && n > 0
    ensures ChainName(0) in p.own && Attributed(p, ChainName(0), Member(ChainName(n - 1)))
  {
    hide ChainName, IsChain, Calls;
    var chain := p.order;
    ChainAt(p, n, 0);
    forall i | 0 <= i < n
      ensures chain[i] in p.own
      ensures i > 0 ==> Calls(p, chain[i - 1], chain[i])
    {
      ChainAt(p, n, i);
    }
    ChainAt(p, n, n - 1);
    assert CallChain(p, chain);
    assert Reaches(p, chain[0], chain[n - 1]);
  }

  lemma ChainAt(p: Program, n: nat, i: nat)
    requires IsChain(p, n) && i < n
    ensures |p.order| == n && p.order[i] == ChainName(i) && p.order[i] in p.own
    ensures p.own[p.order[i]] == {Member(ChainName(i))}
    ensures i > 0 ==> Calls(p, p.order[i - 1], p.order[i])
  {
    hide ChainName;
    ChainNames();
    Known(p, i);
    if i > 0 {
      Known(p, i - 1);
      assert p.calls[p.order[i - 1]] == [ChainName(i)];
    }
  }
}
