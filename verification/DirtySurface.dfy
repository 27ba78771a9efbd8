/** scripts/gen_pipe_dirty_surface.py's derivation as it runs: tables updated in place, loops with
  flags, sets visited in no particular order. */
module DirtySurface {
  import opened DirtyModel
  import opened DirtyVerdicts

  const MAX_ROUNDS := 16

  /** At most 16 rounds, fewer when a round moves nothing. Either way the result is that of 16. */
  method WrittenTokens(p: Program) returns (reach: Reach)
    requires WellFormed(p)
    ensures reach == Rounds(p, 16)
    ensures Covers(p, reach, 16) && Sound(p, reach)
  {
    hide Round, Covers, Sound, WellFormed;
    reach := p.own;
    var changed := true;
    var rounds := 0;
    while changed && rounds < MAX_ROUNDS
      invariant rounds <= MAX_ROUNDS && reach == Rounds(p, rounds)
      invariant !changed ==> Stable(p, reach)
      decreases MAX_ROUNDS - rounds
    {
      reach, changed := OneRound(p, reach);
      rounds := rounds + 1;
    }
    if !changed {
      StableStays(p, rounds, MAX_ROUNDS);
    }
    RoundsCover(p, MAX_ROUNDS);
    RoundsSound(p, MAX_ROUNDS);
  }

  /** The body of the round loop. */
  method OneRound(p: Program, start: Reach) returns (reach: Reach, changed: bool)
    requires WellFormed(p) && start.Keys == p.own.Keys
    ensures reach == Round(p, start, |p.order|)
    ensures changed <==> reach != start
  {
    hide Round, MergeCalls, WellFormed;
    reach, changed := start, false;
    RoundStart(p, start);
    for i := 0 to |p.order|
      invariant reach == Round(p, start, i) && reach.Keys == p.own.Keys == p.calls.Keys
      invariant changed <==> reach != start
      invariant forall g :: g in start ==> start[g] <= reach[g]
    {
      Known(p, i);
      RoundStep(p, start, i + 1);
      var name := p.order[i];
      ghost var roundSoFar := reach;
      var before := |reach[name]|;
      MergeStep(p, roundSoFar, name, 0);
      for k := 0 to |p.calls[name]|
        invariant reach == MergeCalls(p, roundSoFar, name, k) && reach.Keys == roundSoFar.Keys
      {
        MergeStep(p, roundSoFar, name, k + 1);
        var callee := p.calls[name][k];
        if callee != name && callee in reach {
          reach := reach[name := reach[name] + reach[callee]];
        }
      }
      SameSize(roundSoFar[name], reach[name]);
      GrownStaysGrown(start, roundSoFar, reach);
      if |reach[name]| != before {
        changed := true;
      } else {
        assert reach == roundSoFar;
      }
    }
  }

  lemma RoundStart(p: Program, start: Reach)
    requires WellFormed(p) && start.Keys == p.own.Keys
    ensures Round(p, start, 0) == start && p.own.Keys == p.calls.Keys
  {
  }

  lemma GrownStaysGrown(start: Reach, mid: Reach, later: Reach)
    requires start.Keys == mid.Keys == later.Keys
    requires forall g :: g in start ==> start[g] <= mid[g] <= later[g]
    ensures later == start ==> mid == start && later == mid
  {
    if later == start {
      assert forall g :: g in start ==> mid[g] == start[g];
    }
  }

  lemma SameSize<T>(s: set<T>, t: set<T>)
    ensures s <= t && |s| == |t| ==> s == t
  {
    if s < t {
      assert t == s + (t - s);
      var x :| x in t - s;
      assert s <= t - {x};
      Smaller(s, t - {x});
    }
  }

  lemma {:induction false} Smaller<T>(s: set<T>, t: set<T>)
    requires s <= t
    ensures |s| <= |t|
    decreases s
  {
    if s != {} {
      var x :| x in s;
      Smaller(s - {x}, t - {x});
    }
  }

  /** The tokens each aggregate's notice writes, read out of the switch. */
  method AggregateTokens(reach: Reach, cases: seq<Case>) returns (out: map<string, set<Token>>)
    ensures forall a :: a in out ==> out[a] == CaseTokens(reach, cases, a)
    ensures forall a :: a !in out ==> CaseTokens(reach, cases, a) == {}
  {
    out := map[];
    for i := 0 to |cases|
      invariant forall a :: a in out ==> out[a] == CaseTokens(reach, cases[..i], a)
      invariant forall a :: a !in out ==> CaseTokens(reach, cases[..i], a) == {}
    {
      var tokens: set<Token> := {};
      for k := 0 to |cases[i].callees|
        invariant tokens == set c, t | c in cases[i].callees[..k] && t in Get(reach, c) :: t
      {
        tokens := tokens + Get(reach, cases[i].callees[k]);
        assert cases[i].callees[..k + 1] == cases[i].callees[..k] + [cases[i].callees[k]];
      }
      assert cases[i].callees[..|cases[i].callees|] == cases[i].callees;
      var a := cases[i].aggregate;
      forall b ensures CaseTokens(reach, cases[..i + 1], b) ==
        CaseTokens(reach, cases[..i], b) + (if b == a then tokens else {})
      {
        CaseTokensGrow(reach, cases, i, b);
      }
      out := out[a := (if a in out then out[a] else {}) + tokens];
    }
    assert cases[..|cases|] == cases;
  }

  lemma CaseTokensGrow(reach: Reach, cases: seq<Case>, n: nat, a: string)
    requires n < |cases|
    ensures CaseTokens(reach, cases[..n + 1], a) == CaseTokens(reach, cases[..n], a) +
      (if cases[n].aggregate == a then set c, t | c in cases[n].callees && t in Get(reach, c) :: t else {})
  {
    var more := cases[..n + 1];
    assert forall i :: 0 <= i < n ==> more[i] == cases[..n][i];
    forall t | t in CaseTokens(reach, cases[..n], a) ensures t in CaseTokens(reach, more, a) {
      var i, c :| 0 <= i < n && cases[..n][i].aggregate == a && c in cases[..n][i].callees && t in Get(reach, c);
      assert more[i].aggregate == a;
    }
    if cases[n].aggregate == a {
      forall c, t | c in cases[n].callees && t in Get(reach, c) ensures t in CaseTokens(reach, more, a) {
        assert more[n].aggregate == a;
      }
    }
  }

  method ExpandAggregates(tokens: set<Token>, aggregates: map<string, set<Token>>, ghost reach: Reach,
                          ghost cases: seq<Case>) returns (out: set<Token>)
    requires forall a :: a in aggregates ==> aggregates[a] == CaseTokens(reach, cases, a)
    requires forall a :: a !in aggregates ==> CaseTokens(reach, cases, a) == {}
    ensures out == Expanded(tokens, reach, cases)
  {
    hide CaseTokens;
    out := {};
    var left := tokens;
    assert Expanded({}, reach, cases) == {};
    while left != {}
      invariant left <= tokens && out == Expanded(tokens - left, reach, cases)
      decreases left
    {
      var token :| token in left;
      ExpandedGrows(tokens - left, token, reach, cases);
      assert tokens - left + {token} == tokens - (left - {token});
      if token.Aggregate? {
        out := out + (if token.aggregate in aggregates then aggregates[token.aggregate] else {});
      } else {
        out := out + {token};
      }
      left := left - {token};
    }
    assert tokens - left == tokens;
  }

  lemma ExpandedGrows(tokens: set<Token>, token: Token, reach: Reach, cases: seq<Case>)
    ensures Expanded(tokens + {token}, reach, cases) == Expanded(tokens, reach, cases) +
      (if token.Aggregate? then CaseTokens(reach, cases, token.aggregate) else {token})
  {
    hide CaseTokens;
  }

  /** The members and, where known, their fields. */
  method SplitTokens(tokens: set<Token>) returns (members: set<string>, fields: map<string, set<string>>)
    ensures forall m :: m in members <==> Member(m) in tokens
    ensures forall m, x :: (m in fields && x in fields[m]) <==> FieldOf(m, x) in tokens
    ensures members == Members(tokens)
    ensures forall m :: (m in fields ==> fields[m] == Fields(tokens, m)) && (m !in fields ==> Fields(tokens, m) == {})
  {
    members, fields := {}, map[];
    var left := tokens;
    assert Members({}) == {} && forall m :: Fields({}, m) == {};
    assert tokens - left == {};
    while left != {}
      invariant left <= tokens && members == Members(tokens - left)
      invariant forall m :: (m in fields ==> fields[m] == Fields(tokens - left, m)) &&
                            (m !in fields ==> Fields(tokens - left, m) == {})
      decreases left
    {
      var token :| token in left;
      SplitGrows(tokens - left, token);
      assert tokens - left + {token} == tokens - (left - {token});
      if token.Member? {
        members := members + {token.member};
      } else if token.FieldOf? {
        fields := fields[token.member := (if token.member in fields then fields[token.member] else {}) + {token.leaf}];
      }
      left := left - {token};
    }
    assert tokens - left == tokens;
    TokensSplit(tokens);
  }

  lemma SplitGrows(tokens: set<Token>, token: Token)
    ensures Members(tokens + {token}) == Members(tokens) + (if token.Member? then {token.member} else {})
    ensures forall m ::
      Fields(tokens + {token}, m) ==
      Fields(tokens, m) + (if token.FieldOf? && token.member == m then {token.leaf} else {})
  {
    forall m ensures Fields(tokens + {token}, m) ==
      Fields(tokens, m) + (if token.FieldOf? && token.member == m then {token.leaf} else {})
    {
    }
  }

  /** The answer does not depend on the order in which the common members are visited. */
  method MatchWrites(writer: set<Token>, shutter: set<Token>) returns (verdict: Verdict)
    ensures verdict == Match(writer, shutter) && !verdict.Undecided?
    ensures verdict == Supported <==>
      exists m, x, y :: Member(m) in writer && Member(m) in shutter && FieldOf(m, x) in writer &&
        FieldOf(m, y) in shutter && (x == y || x == "*" || y == "*")
    ensures verdict == Coarse ==>
      exists m :: Member(m) in writer && Member(m) in shutter &&
        ((forall x :: FieldOf(m, x) !in writer) || (forall y :: FieldOf(m, y) !in shutter))
    ensures verdict == UnderFiring ==>
      forall m :: Member(m) in writer && Member(m) in shutter ==>
        (exists x :: FieldOf(m, x) in writer) && (exists y :: FieldOf(m, y) in shutter)
  {
    hide Members, Fields;
    MatchMeans(writer, shutter);
    var writerMembers, writerFields := SplitTokens(writer);
    var shutterMembers, shutterFields := SplitTokens(shutter);
    var coarse := false;
    var left := writerMembers * shutterMembers;
    while left != {}
      invariant left <= Common(writer, shutter)
      invariant forall m :: m in Common(writer, shutter) - left ==> !Meets(writer, shutter, m)
      invariant coarse <==> exists m :: m in Common(writer, shutter) - left && Blind(writer, shutter, m)
      decreases left
    {
      var member :| member in left;
      ghost var done := Common(writer, shutter) - left;
      left := left - {member};
      assert Common(writer, shutter) - left == done + {member};
      var written := if member in writerFields then writerFields[member] else {};
      var read := if member in shutterFields then shutterFields[member] else {};
      if written == {} || read == {} {
        assert Blind(writer, shutter, member);
        coarse := true;
        continue;
      }
      if EVERY_FIELD in written || EVERY_FIELD in read || written * read != {} {
        assert Meets(writer, shutter, member);
        return Supported;
      }
    }
    return if coarse then Coarse else UnderFiring;
  }

  const RENDER_STATE_BIT := "NEW_RENDER_STATE"
  const PIPELINE_STATE_BIT := "NEW_PIPELINE_STATE"

  function Claimed(mapping: map<Name, set<string>>, bits: set<string>, mutator: Name): set<string>
    requires mutator in mapping
  {
    mapping[mutator] * bits - {RENDER_STATE_BIT, PIPELINE_STATE_BIT}
  }

  /** One verdict for every (mutator, bit) answer the mapping claims, the render bits aside. */
  method DeriveBitAnswers(mapping: map<Name, set<string>>, bits: set<string>, movers: map<string, Shutter>,
                          moved: Reach, outside: set<Token>) returns (out: map<(Name, string), Verdict>)
    ensures forall m, b :: (m, b) in out <==>
      m in mapping && b in mapping[m] && b in bits && b != "NEW_RENDER_STATE" && b != "NEW_PIPELINE_STATE"
    ensures forall m, b :: (m, b) in out ==>
      (out[(m, b)] == Undecided <==>
         || m !in moved || b !in movers || !movers[b].resolved
         || (exists t :: t in moved[m] && t.Taint?)
         || (Match(moved[m], movers[b].tokens) == UnderFiring && exists t :: t in movers[b].tokens && t in outside))
    ensures forall m, b :: (m, b) in out && out[(m, b)] != Undecided ==>
      m in moved && b in movers && out[(m, b)] == Match(moved[m], movers[b].tokens)
    ensures forall m, b :: (m, b) in out ==> out[(m, b)] == VerdictOn(m, b, movers, moved, outside)
  {
    hide VerdictOn, Match;
    out := map[];
    var mutators := mapping.Keys;
    while mutators != {}
      invariant mutators <= mapping.Keys
      invariant forall m, b :: (m, b) in out <==> m in mapping && m !in mutators && b in Claimed(mapping, bits, m)
      invariant forall m, b :: (m, b) in out ==> out[(m, b)] == VerdictOn(m, b, movers, moved, outside)
      decreases mutators
    {
      var mutator :| mutator in mutators;
      var claimed := Claimed(mapping, bits, mutator);
      ghost var before := out;
      while claimed != {}
        invariant claimed <= Claimed(mapping, bits, mutator)
        invariant forall m, b :: (m, b) in out <==>
          (m, b) in before || (m == mutator && b in Claimed(mapping, bits, mutator) && b !in claimed)
        invariant forall m, b :: (m, b) in out ==> out[(m, b)] == VerdictOn(m, b, movers, moved, outside)
        decreases claimed
      {
        var bit :| bit in claimed;
        var verdict := DeriveOne(mutator, bit, movers, moved, outside);
        out := out[(mutator, bit) := verdict];
        claimed := claimed - {bit};
      }
      mutators := mutators - {mutator};
    }
    forall m, b {
      VerdictMeans(m, b, movers, moved, outside);
    }
  }

  method DeriveOne(mutator: Name, bit: string, movers: map<string, Shutter>, moved: Reach, outside: set<Token>)
    returns (verdict: Verdict)
    ensures verdict == VerdictOn(mutator, bit, movers, moved, outside)
  {
    hide Match;
    if mutator !in moved {
      return Undecided;
    }
    var shutter := if bit in movers then movers[bit] else Shutter({}, false);
    if !shutter.resolved {
      return Undecided;
    }
    if exists t :: t in moved[mutator] && t.Taint? {
      return Undecided;
    }
    verdict := MatchWrites(moved[mutator], shutter.tokens);
    if verdict.Supported? || verdict.Coarse? {
      return verdict;
    }
    if shutter.tokens * outside != {} {
      return Undecided;
    }
    return UnderFiring;
  }

  /** The tokens of every function with its notices expanded. */
  method MovedBy(reach: Reach, cases: seq<Case>) returns (moved: Reach)
    ensures moved == Moved(reach, cases)
    ensures forall f, t :: f in moved ==>
      (t in moved[f] <==>
         || (t in reach[f] && !t.Aggregate?)
         || (exists i, c :: 0 <= i < |cases| && Aggregate(cases[i].aggregate) in reach[f] &&
                            c in cases[i].callees && c in reach && t in reach[c]))
  {
    hide Expanded, CaseTokens;
    var aggregates := AggregateTokens(reach, cases);
    moved := map[];
    var left := reach.Keys;
    while left != {}
      invariant left <= reach.Keys && moved.Keys == reach.Keys - left
      invariant forall f :: f in moved ==> moved[f] == Expanded(reach[f], reach, cases)
      decreases left
    {
      var name :| name in left;
      var expanded := ExpandAggregates(reach[name], aggregates, reach, cases);
      moved := moved[name := expanded];
      left := left - {name};
    }
    forall f, t {
      MovedMeans(reach, cases, f, t);
    }
  }

  /** THE ANALYSIS, end to end: one verdict for each claimed answer; and if no token needs more than 16
      rounds, the expansion is settled and fields come with their members, an UNDER-FIRING answer is true
      of everything that runs with its mutator. */
  method BitAnswers(p: Program, cases: seq<Case>, mapping: map<Name, set<string>>, bits: set<string>,
                    movers: map<string, Shutter>, outside: set<Token>) returns (out: map<(Name, string), Verdict>)
    requires WellFormed(p)
    ensures forall m, b :: (m, b) in out <==>
      m in mapping && b in mapping[m] && b in bits && b != "NEW_RENDER_STATE" && b != "NEW_PIPELINE_STATE"
    ensures forall m, b :: (m, b) in out && out[(m, b)] == UnderFiring ==>
      m in p.own && b in movers && movers[b].resolved && movers[b].tokens * outside == {}
    ensures (&& Timely(p, 16)
             && Settled(Rounds(p, 16), cases)
             && forall f :: f in p.own ==> FieldsHaveMembers(p.own[f])) ==>
      forall m, b :: (m, b) in out && out[(m, b)] == UnderFiring && FieldsHaveMembers(movers[b].tokens) ==>
        Untouched(p, cases, m, movers[b].tokens)
  {
    hide VerdictOn, Timely, Rounds, Exact, Settled, Moved, FieldsHaveMembers, Untouched, Claimed, Covers, Sound;
    var reach := WrittenTokens(p);
    var moved := MovedBy(reach, cases);
    out := DeriveBitAnswers(mapping, bits, movers, moved, outside);
    MovedMeans(reach, cases, "", Taint(""));
    forall m, b | (m, b) in out && out[(m, b)] == UnderFiring
      ensures m in p.own && b in movers && movers[b].resolved && movers[b].tokens * outside == {}
    {
      UnderFiringIsGrounded(m, b, movers, moved, outside);
    }
    if Timely(p, MAX_ROUNDS) && Settled(reach, cases) && forall f :: f in p.own ==> FieldsHaveMembers(p.own[f]) {
      ExactWhenTimely(p, MAX_ROUNDS);
      forall m, b | (m, b) in out && out[(m, b)] == UnderFiring && FieldsHaveMembers(movers[b].tokens)
        ensures Untouched(p, cases, m, movers[b].tokens)
      {
        UnderFiringIsSound(p, reach, cases, m, b, movers, outside);
      }
    }
  }
}
