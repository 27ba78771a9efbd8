/** The write analysis of scripts/gen_pipe_dirty_surface.py: what each function transitively writes,
  by call name, and what it means for a mutator to move what a dirty shutter reads. */
module DirtyModel {
  type Name = string

  /** What a body records: a member written, a field of it ("*" for every field), an aggregate notice,
      or a construct the analysis could not attribute. */
  datatype Token =
    | Member(member: string)
    | FieldOf(member: string, leaf: string)
    | Aggregate(aggregate: string)
    | Taint(reason: string)

  /** The analyzed functions in the order the tables hold them, the names each calls, and the tokens
      its own bodies record. */
  datatype Program = Program(order: seq<Name>, calls: map<Name, seq<Name>>, own: map<Name, set<Token>>)

  predicate Distinct(order: seq<Name>) {
    forall i, j :: 0 <= i < j < |order| ==> order[i] != order[j]
  }

  /** The tables are dictionaries: one entry a name, listed in one order. */
  predicate WellFormed(p: Program) {
    p.calls.Keys == p.own.Keys == (set f | f in p.order) && Distinct(p.order)
  }

  type Reach = map<Name, set<Token>>

  // ---- the fixed point ----------------------------------------------------------------------

  /** `reach[name] |= reach[callee]` over the first k calls of `name`. */
  function MergeCalls(p: Program, reach: Reach, name: Name, k: nat): (r: Reach)
    requires name in p.calls && k <= |p.calls[name]| && name in reach
    ensures r.Keys == reach.Keys
    ensures forall g :: g in reach && g != name ==> r[g] == reach[g]
    ensures reach[name] <= r[name]
  {
    if k == 0 then reach
    else
      var before := MergeCalls(p, reach, name, k - 1);
      var callee := p.calls[name][k - 1];
      if callee != name && callee in before then before[name := before[name] + before[callee]] else before
  }

  /** One round over the first i functions, in place: a later function sees what an earlier one has
      just gained. */
  function Round(p: Program, reach: Reach, i: nat): (r: Reach)
    requires WellFormed(p) && reach.Keys == p.own.Keys && i <= |p.order|
    ensures r.Keys == p.own.Keys
    ensures forall g :: g in reach ==> reach[g] <= r[g]
  {
    if i == 0 then reach
    else
      var before := Round(p, reach, i - 1);
      var name := p.order[i - 1];
      assert name in p.order;
      MergeCalls(p, before, name, |p.calls[name]|)
  }

  function Rounds(p: Program, n: nat): (r: Reach)
    requires WellFormed(p)
    ensures r.Keys == p.own.Keys
  {
    if n == 0 then p.own else Round(p, Rounds(p, n - 1), |p.order|)
  }

  /** One more round would add nothing. */
  predicate Stable(p: Program, reach: Reach)
    requires WellFormed(p) && reach.Keys == p.own.Keys
  {
    Round(p, reach, |p.order|) == reach
  }

  lemma MergeStep(p: Program, reach: Reach, name: Name, k: nat)
    requires name in p.calls && k <= |p.calls[name]| && name in reach
    ensures MergeCalls(p, reach, name, k) ==
      if k == 0 then reach
      else
        var before := MergeCalls(p, reach, name, k - 1);
        var callee := p.calls[name][k - 1];
        if callee != name && callee in before then before[name := before[name] + before[callee]] else before
  {
  }

  lemma Known(p: Program, i: nat)
    requires WellFormed(p) && i < |p.order|
    ensures p.order[i] in p.own && p.order[i] in p.calls
  {
    assert p.order[i] in p.order;
  }

  lemma RoundStep(p: Program, reach: Reach, i: nat)
    requires WellFormed(p) && reach.Keys == p.own.Keys && 0 < i <= |p.order|
    requires p.order[i - 1] in p.calls
    ensures var name := p.order[i - 1];
      var before := Round(p, reach, i - 1);
      && name in before && before.Keys == p.own.Keys == p.calls.Keys
      && Round(p, reach, i) == MergeCalls(p, before, name, |p.calls[name]|)
      && (forall g :: g in before && g != name ==> Round(p, reach, i)[g] == before[g])
      && before[name] <= Round(p, reach, i)[name]
  {
    assert p.order[i - 1] in p.order;
  }

  // ---- what the fixed point is measured against ---------------------------------------------

  /** `f` calls the analyzed function `g` by name. */
  predicate Calls(p: Program, f: Name, g: Name) {
    f in p.calls && g in p.calls[f] && g in p.own
  }

  /** Each function of the chain calls the next. */
  predicate CallChain(p: Program, chain: seq<Name>) {
    chain != [] && (forall i :: 0 <= i < |chain| ==> chain[i] in p.own) &&
    (forall i :: 0 < i < |chain| ==> Calls(p, chain[i - 1], chain[i]))
  }

  ghost predicate ReachesWithin(p: Program, f: Name, g: Name, calls: nat) {
    exists chain: seq<Name> :: CallChain(p, chain) && |chain| <= calls + 1 && chain[0] == f && chain[|chain| - 1] == g
  }

  ghost predicate Reaches(p: Program, f: Name, g: Name) {
    exists chain: seq<Name> :: CallChain(p, chain) && chain[0] == f && chain[|chain| - 1] == g
  }

  /** `f` transitively calls a function that records `t`. */
  ghost predicate Attributed(p: Program, f: Name, t: Token) {
    exists g :: Reaches(p, f, g) && g in p.own && t in p.own[g]
  }

  /** Nothing is attributed to a function that no function it transitively calls records. */
  ghost predicate Sound(p: Program, reach: Reach) {
    forall f, t :: f in reach && t in reach[f] ==> Attributed(p, f, t)
  }

  /** Everything recorded within `n` calls is attributed. */
  ghost predicate Covers(p: Program, reach: Reach, n: nat) {
    forall f, g :: f in reach && ReachesWithin(p, f, g, n) ==> g in p.own && p.own[g] <= reach[f]
  }

  /** The union over all transitive callees, exactly. */
  ghost predicate Exact(p: Program, reach: Reach) {
    reach.Keys == p.own.Keys &&
    forall f, t :: f in reach ==> (t in reach[f] <==> Attributed(p, f, t))
  }

  // ---- how calls and attribution extend -----------------------------------------------------

  lemma ChainFirst(p: Program, f: Name, chain: seq<Name>)
    requires CallChain(p, chain) && Calls(p, f, chain[0]) && f in p.own
    ensures CallChain(p, [f] + chain)
  {
    var longer := [f] + chain;
    assert forall i :: 0 < i < |longer| ==> longer[i] == chain[i - 1];
    forall i | 0 < i < |longer| ensures Calls(p, longer[i - 1], longer[i]) {
      if i > 1 {
        assert Calls(p, chain[i - 2], chain[i - 1]);
      }
    }
  }

  lemma ChainRest(p: Program, chain: seq<Name>)
    requires CallChain(p, chain) && |chain| > 1
    ensures CallChain(p, chain[1..]) && Calls(p, chain[0], chain[1])
  {
    var rest := chain[1..];
    assert forall i :: 0 <= i < |rest| ==> rest[i] == chain[i + 1];
    assert forall i :: 0 < i < |rest| ==> Calls(p, chain[i], chain[i + 1]);
  }

  lemma ReachesItself(p: Program, f: Name)
    requires f in p.own
    ensures Reaches(p, f, f)
  {
    assert CallChain(p, [f]);
  }

  lemma AttributedToCaller(p: Program, f: Name, callee: Name, t: Token)
    requires f in p.own && Calls(p, f, callee) && Attributed(p, callee, t)
    ensures Attributed(p, f, t)
  {
    var g :| Reaches(p, callee, g) && g in p.own && t in p.own[g];
    var chain: seq<Name> :| CallChain(p, chain) && chain[0] == callee && chain[|chain| - 1] == g;
    ChainFirst(p, f, chain);
    assert ([f] + chain)[|chain|] == g;
  }

  // ---- when a token arrives -----------------------------------------------------------------

  /** `f` stands before `g` in the list, so that a round visits it first. */
  predicate Before(p: Program, f: Name, g: Name) {
    exists i :: 0 <= i < |p.order| && p.order[i] == g && f in p.order[..i]
  }

  /** The rounds a token of the chain's last function needs to reach its first: none for the function
      itself, one for its callers, and one more for each further call whose caller is visited before
      its callee. */
  function Delay(p: Program, chain: seq<Name>): (rounds: nat)
    requires chain != []
    ensures rounds < |chain|
  {
    if |chain| == 1 then 0
    else if |chain| == 2 then 1
    else Delay(p, chain[1..]) + (if Before(p, chain[0], chain[1]) then 1 else 0)
  }

  ghost predicate Brings(p: Program, f: Name, t: Token, n: nat, chain: seq<Name>) {
    CallChain(p, chain) && chain[0] == f && t in p.own[chain[|chain| - 1]] && Delay(p, chain) <= n
  }

  /** Some call chain brings `t` to `f` within `n` rounds. */
  ghost predicate ArrivesBy(p: Program, f: Name, t: Token, n: nat) {
    exists chain: seq<Name> :: Brings(p, f, t, n, chain)
  }

  /** `t` comes over a first call: from the callee, after this round if the callee was visited already. */
  ghost predicate Handed(p: Program, f: Name, t: Token, n: nat, callee: Name) {
    callee != f && Calls(p, f, callee) && ArrivesBy(p, callee, t, if Before(p, callee, f) then n + 1 else n)
  }

  /** In a list of distinct names one of two stands before the other. */
  lemma OneIsFirst(p: Program, f: Name, g: Name)
    requires WellFormed(p) && f in p.own && g in p.own && f != g
    ensures Before(p, f, g) <==> !Before(p, g, f)
  {
    assert f in p.order && g in p.order;
    var i :| 0 <= i < |p.order| && p.order[i] == f;
    var j :| 0 <= j < |p.order| && p.order[j] == g;
    VisitedIsBefore(p, i, g);
    VisitedIsBefore(p, j, f);
    assert i < j ==> p.order[..j][i] == f;
    assert j < i ==> p.order[..i][j] == g;
  }

  lemma VisitedIsBefore(p: Program, i: nat, f: Name)
    requires WellFormed(p) && i < |p.order|
    ensures Before(p, f, p.order[i]) <==> f in p.order[..i]
  {
  }

  lemma HandedArrives(p: Program, f: Name, t: Token, n: nat, callee: Name)
    requires WellFormed(p) && f in p.own && Handed(p, f, t, n, callee)
    ensures ArrivesBy(p, f, t, n + 1)
  {
    hide WellFormed, Before;
    var m := if Before(p, callee, f) then n + 1 else n;
    var chain: seq<Name> :| Brings(p, callee, t, m, chain);
    ChainFirst(p, f, chain);
    OneIsFirst(p, f, callee);
    assert ([f] + chain)[1..] == chain;
    assert Brings(p, f, t, n + 1, [f] + chain);
  }

  /** What a round hands a function: what it had, and what comes over its first calls. */
  lemma {:induction false} ArrivesByCalls(p: Program, f: Name, t: Token, n: nat, chain: seq<Name>)
    requires WellFormed(p) && Brings(p, f, t, n + 1, chain)
    ensures ArrivesBy(p, f, t, n) || exists callee :: Handed(p, f, t, n, callee)
    decreases |chain|
  {
    hide WellFormed, Before;
    if |chain| == 1 {
      assert Brings(p, f, t, n, chain);
    } else {
      var callee, rest := chain[1], chain[1..];
      ChainRest(p, chain);
      if callee == f {
        assert Brings(p, f, t, n + 1, rest);
        ArrivesByCalls(p, f, t, n, rest);
      } else {
        OneIsFirst(p, f, callee);
        assert Brings(p, callee, t, if Before(p, callee, f) then n + 1 else n, rest);
        assert Handed(p, f, t, n, callee);
      }
    }
  }

  /** What merging the first k calls leaves with the caller. */
  lemma {:induction false} MergedTokens(p: Program, reach: Reach, name: Name, k: nat, t: Token)
    requires name in p.calls && k <= |p.calls[name]| && name in reach
    ensures t in MergeCalls(p, reach, name, k)[name] <==>
      t in reach[name] || exists c :: c in p.calls[name][..k] && c != name && c in reach && t in reach[c]
  {
    if k > 0 {
      MergedTokens(p, reach, name, k - 1, t);
      assert p.calls[name][..k] == p.calls[name][..k - 1] + [p.calls[name][k - 1]];
    }
  }

  /** Midway through round n + 1: the functions visited hold what arrives by then, the others what
      arrived by round n. */
  ghost predicate Holding(p: Program, reach: Reach, n: nat, i: nat)
    requires i <= |p.order|
  {
    reach.Keys == p.own.Keys &&
    forall f, t :: f in reach ==> (t in reach[f] <==> ArrivesBy(p, f, t, if f in p.order[..i] then n + 1 else n))
  }

  lemma VisitArrives(p: Program, reach: Reach, n: nat, i: nat)
    requires WellFormed(p) && i < |p.order| && Holding(p, reach, n, i)
    requires p.order[i] in reach && p.order[i] in p.calls
    ensures Holding(p, MergeCalls(p, reach, p.order[i], |p.calls[p.order[i]]|), n, i + 1)
  {
    hide WellFormed, Before, MergeCalls, ArrivesBy;
    var name := p.order[i];
    var after := MergeCalls(p, reach, name, |p.calls[name]|);
    assert p.order[..i + 1] == p.order[..i] + [name];
    NotYetVisited(p, i);
    forall t ensures t in after[name] <==> ArrivesBy(p, name, t, n + 1) {
      VisitBrings(p, reach, n, i, t);
    }
  }

  lemma NotYetVisited(p: Program, i: nat)
    requires WellFormed(p) && i < |p.order|
    ensures p.order[i] !in p.order[..i]
  {
  }

  lemma VisitBrings(p: Program, reach: Reach, n: nat, i: nat, t: Token)
    requires WellFormed(p) && i < |p.order| && Holding(p, reach, n, i)
    requires p.order[i] in reach && p.order[i] in p.calls
    ensures t in MergeCalls(p, reach, p.order[i], |p.calls[p.order[i]]|)[p.order[i]] <==>
      ArrivesBy(p, p.order[i], t, n + 1)
  {
    hide WellFormed, Before, MergeCalls, ArrivesBy;
    var name := p.order[i];
    var calls := p.calls[name];
    MergedTokens(p, reach, name, |calls|, t);
    NotYetVisited(p, i);
    assert calls[..|calls|] == calls;
    forall c | c in reach && c in calls && c != name
      ensures t in reach[c] <==> Handed(p, name, t, n, c)
    {
      VisitedIsBefore(p, i, c);
    }
    if t in reach[name] {
      ArrivesLater(p, name, t, n, n + 1);
    }
    if c :| c in calls && c != name && c in reach && t in reach[c] {
      HandedArrives(p, name, t, n, c);
    }
    if ArrivesBy(p, name, t, n + 1) {
      ArrivalSplits(p, name, t, n);
    }
  }

  lemma ArrivesLater(p: Program, f: Name, t: Token, n: nat, m: nat)
    requires ArrivesBy(p, f, t, n) && n <= m
    ensures ArrivesBy(p, f, t, m)
  {
    var chain: seq<Name> :| Brings(p, f, t, n, chain);
    assert Brings(p, f, t, m, chain);
  }

  lemma ArrivalSplits(p: Program, f: Name, t: Token, n: nat)
    requires WellFormed(p) && ArrivesBy(p, f, t, n + 1)
    ensures ArrivesBy(p, f, t, n) || exists callee :: Handed(p, f, t, n, callee)
  {
    var chain: seq<Name> :| Brings(p, f, t, n + 1, chain);
    ArrivesByCalls(p, f, t, n, chain);
  }

  lemma {:induction false} RoundHolds(p: Program, reach: Reach, n: nat, i: nat)
    requires WellFormed(p) && Holding(p, reach, n, 0) && i <= |p.order|
    ensures Holding(p, Round(p, reach, i), n, i)
  {
    hide Holding, MergeCalls, Distinct;
    assert reach.Keys == p.own.Keys by { HoldingKeys(p, reach, n, 0); }
    if i > 0 {
      RoundHolds(p, reach, n, i - 1);
      assert p.order[i - 1] in p.order;
      VisitArrives(p, Round(p, reach, i - 1), n, i - 1);
    }
  }

  lemma HoldingKeys(p: Program, reach: Reach, n: nat, i: nat)
    requires i <= |p.order| && Holding(p, reach, n, i)
    ensures reach.Keys == p.own.Keys
  {
  }

  /** THE ROUNDS, exactly: after n rounds a function holds a token if and only if some call chain brings
      it within n rounds, as the calls and the order of the list alone decide. */
  lemma {:induction false} RoundsHoldArrivals(p: Program, n: nat, f: Name, t: Token)
    requires WellFormed(p) && f in p.own
    ensures t in Rounds(p, n)[f] <==> ArrivesBy(p, f, t, n)
  {
    hide Round, ArrivesBy, Distinct;
    if n == 0 {
      OwnArrives(p, f, t);
    } else {
      var before := Rounds(p, n - 1);
      forall g, u | g in before ensures u in before[g] <==> ArrivesBy(p, g, u, n - 1) {
        RoundsHoldArrivals(p, n - 1, g, u);
      }
      RoundHolds(p, before, n - 1, |p.order|);
      assert p.order[..|p.order|] == p.order;
    }
  }

  lemma OwnArrives(p: Program, f: Name, t: Token)
    requires f in p.own
    ensures t in p.own[f] <==> ArrivesBy(p, f, t, 0)
  {
    if t in p.own[f] {
      assert Brings(p, f, t, 0, [f]);
    }
    if ArrivesBy(p, f, t, 0) {
      var chain: seq<Name> :| Brings(p, f, t, 0, chain);
      if |chain| > 1 {
        DelayedByCalls(p, chain);
      }
    }
  }

  lemma {:induction false} DelayedByCalls(p: Program, chain: seq<Name>)
    requires |chain| > 1
    ensures Delay(p, chain) > 0
  {
    if |chain| > 2 {
      DelayedByCalls(p, chain[1..]);
    }
  }

  lemma ArrivalIsAttributed(p: Program, f: Name, t: Token)
    requires f in p.own
    ensures Attributed(p, f, t) <==> exists n: nat :: ArrivesBy(p, f, t, n)
  {
    if Attributed(p, f, t) {
      var g :| Reaches(p, f, g) && g in p.own && t in p.own[g];
      var chain: seq<Name> :| CallChain(p, chain) && chain[0] == f && chain[|chain| - 1] == g;
      assert Brings(p, f, t, Delay(p, chain), chain);
      assert ArrivesBy(p, f, t, Delay(p, chain));
    }
    if n: nat :| ArrivesBy(p, f, t, n) {
      var chain: seq<Name> :| Brings(p, f, t, n, chain);
      assert Reaches(p, f, chain[|chain| - 1]);
    }
  }

  // ---- when the answer is complete ----------------------------------------------------------

  /** Every token that a transitive callee records is brought within `n` rounds. */
  ghost predicate Timely(p: Program, n: nat) {
    forall f, t :: f in p.own && Attributed(p, f, t) ==> ArrivesBy(p, f, t, n)
  }

  /** THE CAP: n rounds end with exactly the union over all transitive callees if and only if no token
      needs more than n. */
  lemma ExactWhenTimely(p: Program, n: nat)
    requires WellFormed(p)
    ensures Exact(p, Rounds(p, n)) <==> Timely(p, n)
  {
    hide Rounds, Attributed, ArrivesBy;
    forall f, t | f in p.own
      ensures t in Rounds(p, n)[f] <==> ArrivesBy(p, f, t, n)
      ensures ArrivesBy(p, f, t, n) ==> Attributed(p, f, t)
    {
      RoundsHoldArrivals(p, n, f, t);
      ArrivalIsAttributed(p, f, t);
    }
  }

  /** The rounds never attribute more than the union over all transitive callees. */
  lemma RoundsSound(p: Program, n: nat)
    requires WellFormed(p)
    ensures Sound(p, Rounds(p, n))
  {
    hide Rounds, Attributed, ArrivesBy;
    forall f, t | f in p.own && t in Rounds(p, n)[f] ensures Attributed(p, f, t) {
      RoundsHoldArrivals(p, n, f, t);
      ArrivalIsAttributed(p, f, t);
    }
  }

  /** After r rounds every function has the tokens of all functions within r calls. */
  lemma RoundsCover(p: Program, n: nat)
    requires WellFormed(p)
    ensures Covers(p, Rounds(p, n), n)
  {
    hide Rounds, ArrivesBy;
    forall f, g, t | f in p.own && ReachesWithin(p, f, g, n) && g in p.own && t in p.own[g]
      ensures t in Rounds(p, n)[f]
    {
      var chain: seq<Name> :| CallChain(p, chain) && |chain| <= n + 1 && chain[0] == f && chain[|chain| - 1] == g;
      assert Brings(p, f, t, n, chain);
      ArrivesIfBrought(p, f, t, n, chain);
      RoundsHoldArrivals(p, n, f, t);
    }
  }

  lemma ArrivesIfBrought(p: Program, f: Name, t: Token, n: nat, chain: seq<Name>)
    requires Brings(p, f, t, n, chain)
    ensures ArrivesBy(p, f, t, n)
  {
  }

  /** When no chain of calls needs more than n calls, n rounds are complete. */
  lemma EnoughRounds(p: Program, n: nat)
    requires WellFormed(p)
    requires forall f, g :: Reaches(p, f, g) ==> ReachesWithin(p, f, g, n)
    ensures Exact(p, Rounds(p, n))
  {
    hide Rounds, Reaches, ReachesWithin;
    RoundsSound(p, n);
    RoundsCover(p, n);
    var reach := Rounds(p, n);
    forall f, g, t | f in reach && Reaches(p, f, g) && g in p.own && t in p.own[g] ensures t in reach[f] {
      assert p.own[g] <= reach[f];
    }
  }

  // ---- leaving the loop early ---------------------------------------------------------------

  /** Once stable, further rounds change nothing: leaving the loop early is the same as running it on. */
  lemma {:induction false} StableStays(p: Program, n: nat, m: nat)
    requires WellFormed(p) && Stable(p, Rounds(p, n)) && n <= m
    ensures Rounds(p, m) == Rounds(p, n)
  {
    hide Round, WellFormed;
    if n < m {
      StableStays(p, n, m - 1);
    }
  }

  /** The rounds are complete if and only if one more would change nothing. */
  lemma ExactWhenStable(p: Program, n: nat)
    requires WellFormed(p)
    ensures Exact(p, Rounds(p, n)) <==> Stable(p, Rounds(p, n))
  {
    hide Round, Attributed, ArrivesBy, WellFormed;
    var reach, next := Rounds(p, n), Rounds(p, n + 1);
    if Stable(p, reach) {
      forall f, t | f in p.own && Attributed(p, f, t) ensures ArrivesBy(p, f, t, n) {
        ArrivalIsAttributed(p, f, t);
        var m: nat :| ArrivesBy(p, f, t, m);
        RoundsHoldArrivals(p, m, f, t);
        RoundsHoldArrivals(p, n, f, t);
        if m <= n {
          ArrivesLater(p, f, t, m, n);
        } else {
          StableStays(p, n, m);
        }
      }
      ExactWhenTimely(p, n);
    }
    if Exact(p, reach) {
      RoundsSound(p, n + 1);
      forall f | f in reach ensures next[f] == reach[f] {
        assert forall t :: t in next[f] ==> t in reach[f];
        assert reach[f] <= next[f];
      }
    }
  }
}
