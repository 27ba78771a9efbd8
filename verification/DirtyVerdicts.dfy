/** The match rule and the verdicts of scripts/gen_pipe_dirty_surface.py, and when an UNDER-FIRING
  verdict can be believed. */
module DirtyVerdicts {
  import opened DirtyModel

  datatype Verdict = Supported | UnderFiring | Coarse | Undecided

  const EVERY_FIELD := "*"

  // ---- aggregates ---------------------------------------------------------------------------

  /** One case of the aggregate notice's switch: the aggregate, and the functions its case calls. */
  datatype Case = Case(aggregate: string, callees: seq<Name>)

  function Get(reach: Reach, f: Name): set<Token> {
    if f in reach then reach[f] else {}
  }

  /** What the cases of `aggregate` write, over the first k cases. */
  function CaseTokens(reach: Reach, cases: seq<Case>, aggregate: string): set<Token> {
    set i, c, t | 0 <= i < |cases| && cases[i].aggregate == aggregate && c in cases[i].callees &&
                  t in Get(reach, c) :: t
  }

  /** AGG:X stands for whatever X's notice writes. */
  function Expanded(tokens: set<Token>, reach: Reach, cases: seq<Case>): set<Token> {
    (set t | t in tokens && !t.Aggregate?) +
    (set a, t | a in tokens && a.Aggregate? && t in CaseTokens(reach, cases, a.aggregate) :: t)
  }

  /** What each mutator moves: its tokens with the notices expanded. */
  function Moved(reach: Reach, cases: seq<Case>): Reach {
    map f | f in reach :: Expanded(reach[f], reach, cases)
  }

  /** What a function moves, told from the tables: the tokens attributed to it that are no notices, and what
      the functions write that a case of a notice attributed to it calls. */
  lemma MovedMeans(reach: Reach, cases: seq<Case>, f: Name, t: Token)
    ensures Moved(reach, cases).Keys == reach.Keys
    ensures f in reach ==>
      (t in Moved(reach, cases)[f] <==>
         || (t in reach[f] && !t.Aggregate?)
         || (exists i, c :: 0 <= i < |cases| && Aggregate(cases[i].aggregate) in reach[f] &&
                            c in cases[i].callees && c in reach && t in reach[c]))
  {
    if f in reach {
      if a :| a in reach[f] && a.Aggregate? && t in CaseTokens(reach, cases, a.aggregate) {
        var i, c :| 0 <= i < |cases| && cases[i].aggregate == a.aggregate && c in cases[i].callees &&
          t in Get(reach, c);
        assert Aggregate(cases[i].aggregate) == a;
      }
      if i, c :| 0 <= i < |cases| && Aggregate(cases[i].aggregate) in reach[f] && c in cases[i].callees &&
                 c in reach && t in reach[c]
      {
        assert t in Get(reach, c);
        assert t in CaseTokens(reach, cases, cases[i].aggregate);
      }
    }
  }

  /** No notice writes through another notice. */
  predicate NoNestedNotices(reach: Reach, cases: seq<Case>) {
    forall i :: 0 <= i < |cases| ==> forall c :: c in cases[i].callees ==>
      forall t :: t in Get(reach, c) ==> !t.Aggregate?
  }

  /** `a` is noticed by what the tokens hold, `b` by a notice of `a`, and `t` is written by that of `b`. */
  predicate WrittenTwoDeep(tokens: set<Token>, reach: Reach, cases: seq<Case>, a: string, b: string, t: Token) {
    Aggregate(a) in tokens && Aggregate(b) in CaseTokens(reach, cases, a) && t in CaseTokens(reach, cases, b)
  }

  /** Whatever a notice writes through another one is in the expansion already. */
  ghost predicate Settled(reach: Reach, cases: seq<Case>) {
    forall f, a, b, t :: f in reach && WrittenTwoDeep(reach[f], reach, cases, a, b, t) && !t.Aggregate? ==>
      t in Expanded(reach[f], reach, cases)
  }

  lemma UnnestedIsSettled(reach: Reach, cases: seq<Case>)
    requires NoNestedNotices(reach, cases)
    ensures Settled(reach, cases)
  {
  }

  // ---- the match rule -----------------------------------------------------------------------

  function Members(tokens: set<Token>): set<string> {
    set t | t in tokens && t.Member? :: t.member
  }

  function Fields(tokens: set<Token>, member: string): set<string> {
    set t | t in tokens && t.FieldOf? && t.member == member :: t.leaf
  }

  predicate Intersect(written: set<string>, read: set<string>) {
    EVERY_FIELD in written || EVERY_FIELD in read || written * read != {}
  }

  /** Both sides know the fields, and they meet. */
  predicate Meets(writer: set<Token>, shutter: set<Token>, member: string) {
    Fields(writer, member) != {} && Fields(shutter, member) != {} &&
    Intersect(Fields(writer, member), Fields(shutter, member))
  }

  predicate Blind(writer: set<Token>, shutter: set<Token>, member: string) {
    Fields(writer, member) == {} || Fields(shutter, member) == {}
  }

  function Common(writer: set<Token>, shutter: set<Token>): set<string> {
    Members(writer) * Members(shutter)
  }

  function Match(writer: set<Token>, shutter: set<Token>): Verdict {
    if exists m :: m in Common(writer, shutter) && Meets(writer, shutter, m) then Supported
    else if exists m :: m in Common(writer, shutter) && Blind(writer, shutter, m) then Coarse
    else UnderFiring
  }

  /** THE RULE, token by token: support is a member on both sides with a field written that is a field read,
      either of which may be every field; short of that, a member on both sides of which one side knows no
      field is coarse. */
  lemma MatchMeans(writer: set<Token>, shutter: set<Token>)
    ensures Match(writer, shutter) == Supported <==>
      exists m, x, y :: Member(m) in writer && Member(m) in shutter && FieldOf(m, x) in writer &&
        FieldOf(m, y) in shutter && (x == y || x == "*" || y == "*")
    ensures Match(writer, shutter) == Coarse <==>
      && Match(writer, shutter) != Supported
      && exists m :: Member(m) in writer && Member(m) in shutter &&
           ((forall x :: FieldOf(m, x) !in writer) || (forall y :: FieldOf(m, y) !in shutter))
    ensures Match(writer, shutter) != Undecided
  {
    hide Members, Fields;
    TokensSplit(writer);
    TokensSplit(shutter);
    if m :| m in Common(writer, shutter) && Meets(writer, shutter, m) {
      var x, y := MeetingFields(writer, shutter, m);
    }
    if m, x, y :| Member(m) in writer && Member(m) in shutter && FieldOf(m, x) in writer && FieldOf(m, y) in shutter &&
                  (x == y || x == "*" || y == "*")
    {
      assert x == y ==> x in Fields(writer, m) * Fields(shutter, m);
      assert m in Common(writer, shutter) && Meets(writer, shutter, m);
    }
    forall m ensures (Fields(writer, m) == {} <==> forall x :: FieldOf(m, x) !in writer) &&
                     (Fields(shutter, m) == {} <==> forall y :: FieldOf(m, y) !in shutter)
    {
    }
    forall m | Member(m) in writer && Member(m) in shutter ensures m in Common(writer, shutter) {
    }
  }

  lemma TokensSplit(tokens: set<Token>)
    ensures forall m :: m in Members(tokens) <==> Member(m) in tokens
    ensures forall m, x :: x in Fields(tokens, m) <==> FieldOf(m, x) in tokens
  {
  }

  lemma MeetingFields(writer: set<Token>, shutter: set<Token>, m: string) returns (x: string, y: string)
    requires Meets(writer, shutter, m)
    ensures FieldOf(m, x) in writer && FieldOf(m, y) in shutter && (x == y || x == "*" || y == "*")
  {
    var written, read := Fields(writer, m), Fields(shutter, m);
    if EVERY_FIELD in written {
      x, y := EVERY_FIELD, var f :| f in read; f;
    } else if EVERY_FIELD in read {
      x, y := (var f :| f in written; f), EVERY_FIELD;
    } else {
      var f :| f in written * read;
      x, y := f, f;
    }
  }

  // ---- the verdict on one answer ------------------------------------------------------------

  datatype Shutter = Shutter(tokens: set<Token>, resolved: bool)

  function ShutterOf(movers: map<string, Shutter>, bit: string): Shutter {
    if bit in movers then movers[bit] else Shutter({}, false)
  }

  predicate HasTaint(tokens: set<Token>) {
    exists t :: t in tokens && t.Taint?
  }

  function VerdictOn(mutator: Name, bit: string, movers: map<string, Shutter>, moved: Reach, outside: set<Token>)
    : Verdict
  {
    var shutter := ShutterOf(movers, bit);
    if mutator !in moved || !shutter.resolved || HasTaint(moved[mutator]) then Undecided
    else
      var verdict := Match(moved[mutator], shutter.tokens);
      if verdict.UnderFiring? && shutter.tokens * outside != {} then Undecided else verdict
  }

  /** THE VERDICT, on the tables: undecided if and only if the mutator has no body, the bit no resolved
      shutter, the body a construct that could not be attributed, or the tokens do not meet but some token of
      the shutter is written outside; otherwise the tokens decide. */
  lemma VerdictMeans(mutator: Name, bit: string, movers: map<string, Shutter>, moved: Reach, outside: set<Token>)
    ensures VerdictOn(mutator, bit, movers, moved, outside) == Undecided <==>
      || mutator !in moved || bit !in movers || !movers[bit].resolved
      || (exists t :: t in moved[mutator] && t.Taint?)
      || (Match(moved[mutator], movers[bit].tokens) == UnderFiring &&
          exists t :: t in movers[bit].tokens && t in outside)
    ensures VerdictOn(mutator, bit, movers, moved, outside) != Undecided ==>
      && mutator in moved && bit in movers
      && VerdictOn(mutator, bit, movers, moved, outside) == Match(moved[mutator], movers[bit].tokens)
  {
    if mutator in moved && bit in movers {
      MatchMeans(moved[mutator], movers[bit].tokens);
      Disjoint(movers[bit].tokens, outside);
    }
    hide Match;
  }

  lemma Disjoint(tokens: set<Token>, outside: set<Token>)
    ensures tokens * outside != {} <==> exists t :: t in tokens && t in outside
  {
    if t :| t in tokens && t in outside {
      assert t in tokens * outside;
    }
  }

  // ---- when UNDER-FIRING can be believed ----------------------------------------------------

  /** A recorded read that field `leaf` of `member` is part of: that field, every field, or - with no
      field recorded at all - the member in a shape that does not tell. */
  predicate ReadsField(shutter: set<Token>, member: string, leaf: string) {
    FieldOf(member, leaf) in shutter || FieldOf(member, EVERY_FIELD) in shutter ||
    (leaf == EVERY_FIELD && Fields(shutter, member) != {}) ||
    (Member(member) in shutter && Fields(shutter, member) == {})
  }

  /** Whatever records a field records its member too. */
  predicate FieldsHaveMembers(tokens: set<Token>) {
    forall t :: t in tokens && t.FieldOf? ==> Member(t.member) in tokens
  }

  /** `f` makes `g` run: it calls it by name, or notices an aggregate whose case does. */
  ghost predicate Triggers(p: Program, cases: seq<Case>, f: Name, g: Name) {
    Calls(p, f, g) || Notifies(p, cases, f, g)
  }

  ghost predicate Notifies(p: Program, cases: seq<Case>, f: Name, g: Name) {
    f in p.own && g in p.own &&
    exists i :: 0 <= i < |cases| && Aggregate(cases[i].aggregate) in p.own[f] && g in cases[i].callees
  }

  ghost predicate RunChain(p: Program, cases: seq<Case>, chain: seq<Name>) {
    chain != [] && (forall i :: 0 <= i < |chain| ==> chain[i] in p.own) &&
    forall i :: 0 < i < |chain| ==> Triggers(p, cases, chain[i - 1], chain[i])
  }

  /** `g` runs when `f` does, through any mixture of calls and notices. */
  ghost predicate Runs(p: Program, cases: seq<Case>, f: Name, g: Name) {
    exists chain: seq<Name> :: RunChain(p, cases, chain) && chain[0] == f && chain[|chain| - 1] == g
  }

  /** One expansion of the notices holds everything that is written when `f` runs. */
  ghost predicate HoldsRuns(p: Program, reach: Reach, cases: seq<Case>) {
    forall f, g, t :: f in reach && Runs(p, cases, f, g) && g in p.own && t in p.own[g] && !t.Aggregate? ==>
      t in Expanded(reach[f], reach, cases)
  }

  lemma RunsOver(p: Program, cases: seq<Case>, f: Name, h: Name, g: Name)
    requires Runs(p, cases, f, h) && Runs(p, cases, h, g)
    ensures Runs(p, cases, f, g)
  {
    var to: seq<Name> :| RunChain(p, cases, to) && to[0] == f && to[|to| - 1] == h;
    var on: seq<Name> :| RunChain(p, cases, on) && on[0] == h && on[|on| - 1] == g;
    var chain := to + on[1..];
    forall i | 0 < i < |chain| ensures Triggers(p, cases, chain[i - 1], chain[i]) {
      if i < |to| {
        assert Triggers(p, cases, to[i - 1], to[i]);
      } else {
        assert Triggers(p, cases, on[i - |to|], on[i - |to| + 1]);
      }
    }
    assert RunChain(p, cases, chain) && chain[|chain| - 1] == g;
  }

  lemma ReachedRuns(p: Program, cases: seq<Case>, f: Name, g: Name)
    requires Reaches(p, f, g)
    ensures Runs(p, cases, f, g)
  {
    var chain: seq<Name> :| CallChain(p, chain) && chain[0] == f && chain[|chain| - 1] == g;
    assert forall i :: 0 < i < |chain| ==>
      Calls(p, chain[i - 1], chain[i]) && Triggers(p, cases, chain[i - 1], chain[i]);
    assert RunChain(p, cases, chain);
  }

  /** Who is attributed a notice runs what its cases call. */
  lemma NoticedRuns(p: Program, reach: Reach, cases: seq<Case>, f: Name, a: string, t: Token) returns (c: Name)
    requires Exact(p, reach) && f in reach && Aggregate(a) in reach[f] && t in CaseTokens(reach, cases, a)
    ensures c in reach && t in reach[c] && Runs(p, cases, f, c)
  {
    var i, callee :| 0 <= i < |cases| && cases[i].aggregate == a && callee in cases[i].callees &&
      t in Get(reach, callee);
    c := callee;
    assert Attributed(p, f, Aggregate(a));
    var h :| Reaches(p, f, h) && h in p.own && Aggregate(a) in p.own[h];
    assert Notifies(p, cases, h, c) && Triggers(p, cases, h, c);
    assert RunChain(p, cases, [h, c]);
    assert Runs(p, cases, h, c);
    ReachedRuns(p, cases, f, h);
    RunsOver(p, cases, f, h, c);
  }

  /** A settled expansion holds everything at the end of a chain: by its first step, a call or a notice. */
  lemma {:induction false} SettledHoldsChain(p: Program, reach: Reach, cases: seq<Case>, chain: seq<Name>, t: Token)
    requires Exact(p, reach) && Settled(reach, cases) && RunChain(p, cases, chain)
    requires t in p.own[chain[|chain| - 1]] && !t.Aggregate?
    ensures t in Expanded(reach[chain[0]], reach, cases)
    decreases |chain|
  {
    hide CaseTokens, Attributed;
    var f := chain[0];
    OwnIsReached(p, reach, f);
    if |chain| > 1 {
      var h, rest := chain[1], chain[1..];
      assert Triggers(p, cases, f, h);
      assert RunChain(p, cases, rest) by {
        assert forall i :: 0 <= i < |rest| ==> rest[i] == chain[i + 1];
        assert forall i :: 0 < i < |rest| ==> Triggers(p, cases, chain[i], chain[i + 1]);
      }
      SettledHoldsChain(p, reach, cases, rest, t);
      if Calls(p, f, h) {
        CalleesTokens(p, reach, f, h);
      } else {
        var i :| 0 <= i < |cases| && Aggregate(cases[i].aggregate) in p.own[f] && h in cases[i].callees;
        CalledByCase(reach, cases, i, h);
        ThroughNotice(reach, cases, f, cases[i].aggregate, h, t);
      }
    }
  }

  lemma CalleesTokens(p: Program, reach: Reach, f: Name, h: Name)
    requires Exact(p, reach) && f in reach && Calls(p, f, h)
    ensures h in reach && reach[h] <= reach[f]
  {
    forall t | t in reach[h] ensures t in reach[f] {
      AttributedToCaller(p, f, h, t);
    }
  }

  lemma CalledByCase(reach: Reach, cases: seq<Case>, i: nat, h: Name)
    requires i < |cases| && h in cases[i].callees && h in reach
    ensures reach[h] <= CaseTokens(reach, cases, cases[i].aggregate)
  {
    assert Get(reach, h) == reach[h];
  }

  lemma ThroughNotice(reach: Reach, cases: seq<Case>, f: Name, a: string, h: Name, t: Token)
    requires Settled(reach, cases) && f in reach && h in reach && Aggregate(a) in reach[f] && !t.Aggregate?
    requires reach[h] <= CaseTokens(reach, cases, a) && t in Expanded(reach[h], reach, cases)
    ensures t in Expanded(reach[f], reach, cases)
  {
    hide CaseTokens;
    if t !in reach[h] {
      var b :| b in reach[h] && b.Aggregate? && t in CaseTokens(reach, cases, b.aggregate);
      assert WrittenTwoDeep(reach[f], reach, cases, a, b.aggregate, t);
    }
  }

  lemma OwnIsReached(p: Program, reach: Reach, f: Name)
    requires Exact(p, reach) && f in reach
    ensures p.own[f] <= reach[f]
  {
    ReachesItself(p, f);
    forall t | t in p.own[f] ensures t in reach[f] {
      assert Attributed(p, f, t);
    }
  }

  /** ONE EXPANSION, exactly: over an exact map it holds everything that is written when a function runs,
      through any mixture of calls and notices, if and only if it is settled. */
  lemma {:induction false} HoldsRunsExactly(p: Program, reach: Reach, cases: seq<Case>)
    requires Exact(p, reach)
    ensures HoldsRuns(p, reach, cases) <==> Settled(reach, cases)
  {
    hide Exact, Settled, Expanded, Triggers;
    if Settled(reach, cases) {
      forall f, g, t | f in reach && Runs(p, cases, f, g) && g in p.own && t in p.own[g] && !t.Aggregate?
        ensures t in Expanded(reach[f], reach, cases)
      {
        var chain: seq<Name> :| RunChain(p, cases, chain) && chain[0] == f && chain[|chain| - 1] == g;
        SettledHoldsChain(p, reach, cases, chain, t);
      }
    }
    if HoldsRuns(p, reach, cases) {
      HeldIsSettled(p, reach, cases);
    }
  }

  lemma HeldIsSettled(p: Program, reach: Reach, cases: seq<Case>)
    requires Exact(p, reach) && HoldsRuns(p, reach, cases)
    ensures Settled(reach, cases)
  {
    hide Expanded, CaseTokens, Runs;
    forall f, a, b, t | f in reach && WrittenTwoDeep(reach[f], reach, cases, a, b, t) && !t.Aggregate?
      ensures t in Expanded(reach[f], reach, cases)
    {
      var c := NoticedRuns(p, reach, cases, f, a, Aggregate(b));
      var d := NoticedRuns(p, reach, cases, c, b, t);
      RunsOver(p, cases, f, c, d);
      assert Attributed(p, d, t);
      var g :| Reaches(p, d, g) && g in p.own && t in p.own[g];
      ReachedRuns(p, cases, d, g);
      RunsOver(p, cases, f, d, g);
    }
  }

  /** Over an exact map nothing is moved that is not written when the function runs. */
  lemma {:induction false} MovedRuns(p: Program, reach: Reach, cases: seq<Case>, f: Name, t: Token)
    requires Exact(p, reach) && f in reach && t in Moved(reach, cases)[f]
    ensures exists g :: Runs(p, cases, f, g) && g in p.own && t in p.own[g]
  {
    hide CaseTokens, Runs;
    var h := f;
    if t in reach[f] {
      RunsItself(p, cases, f);
    } else {
      var a :| a in reach[f] && a.Aggregate? && t in CaseTokens(reach, cases, a.aggregate);
      h := NoticedRuns(p, reach, cases, f, a.aggregate, t);
    }
    assert Attributed(p, h, t);
    var g :| Reaches(p, h, g) && g in p.own && t in p.own[g];
    ReachedRuns(p, cases, h, g);
    RunsOver(p, cases, f, h, g);
  }

  lemma RunsItself(p: Program, cases: seq<Case>, f: Name)
    requires f in p.own
    ensures Runs(p, cases, f, f)
  {
    assert RunChain(p, cases, [f]);
  }

  /** The tables can be believed: the fixed point is exact, one expansion of it is settled, and what
      records a field records its member too. */
  ghost predicate Believable(p: Program, reach: Reach, cases: seq<Case>) {
    Exact(p, reach) && Settled(reach, cases) && forall f :: f in p.own ==> FieldsHaveMembers(p.own[f])
  }

  /** SOUNDNESS: with the fixed point exact and its expansion settled, an UNDER-FIRING verdict means that
      nothing that runs when the mutator does, through any mixture of calls and notices, records a write
      to a field the shutter reads or a construct that could not be attributed, and that none of the
      shutter's tokens is written outside the analyzed files. */
  lemma {:induction false} UnderFiringIsSound(p: Program, reach: Reach, cases: seq<Case>, mutator: Name, bit: string,
                                              movers: map<string, Shutter>, outside: set<Token>)
    requires Believable(p, reach, cases) && FieldsHaveMembers(ShutterOf(movers, bit).tokens)
    ensures VerdictOn(mutator, bit, movers, Moved(reach, cases), outside) == UnderFiring ==>
      && mutator in p.own && bit in movers && movers[bit].resolved
      && Untouched(p, cases, mutator, movers[bit].tokens)
      && movers[bit].tokens * outside == {}
  {
    hide Believable, Moved, Runs, VerdictOn, FieldsHaveMembers, Harmless;
    if VerdictOn(mutator, bit, movers, Moved(reach, cases), outside) == UnderFiring {
      forall g, t | Runs(p, cases, mutator, g) && g in p.own && t in p.own[g]
        ensures Harmless(t, ShutterOf(movers, bit).tokens)
      {
        HarmlessToken(p, reach, cases, mutator, bit, movers, outside, g, t);
      }
      UnderFiringIsGrounded(mutator, bit, movers, Moved(reach, cases), outside);
      MovedIsOwned(p, reach, cases);
    }
  }

  lemma MovedIsOwned(p: Program, reach: Reach, cases: seq<Case>)
    requires Believable(p, reach, cases)
    ensures Moved(reach, cases).Keys == p.own.Keys
  {
    hide Settled, Expanded;
  }

  /** And so where no notice writes through another: a condition on the cases alone. */
  lemma {:induction false} UnnestedUnderFiringIsSound(p: Program, reach: Reach, cases: seq<Case>, mutator: Name,
                                                      bit: string, movers: map<string, Shutter>, outside: set<Token>)
    requires Exact(p, reach) && NoNestedNotices(reach, cases) && forall f :: f in p.own ==> FieldsHaveMembers(p.own[f])
    requires FieldsHaveMembers(ShutterOf(movers, bit).tokens)
    ensures VerdictOn(mutator, bit, movers, Moved(reach, cases), outside) == UnderFiring ==>
      && mutator in p.own && bit in movers && movers[bit].resolved
      && Untouched(p, cases, mutator, movers[bit].tokens)
      && movers[bit].tokens * outside == {}
  {
    hide Exact, NoNestedNotices, FieldsHaveMembers, VerdictOn, Untouched, Moved, Settled;
    UnnestedIsSettled(reach, cases);
    UnderFiringIsSound(p, reach, cases, mutator, bit, movers, outside);
  }

  /** Nothing that runs when the mutator does records anything harmful to the shutter. */
  ghost predicate Untouched(p: Program, cases: seq<Case>, mutator: Name, shutter: set<Token>) {
    forall g, t :: Runs(p, cases, mutator, g) && g in p.own && t in p.own[g] ==> Harmless(t, shutter)
  }

  /** Neither a construct that could not be attributed nor a write to a field the shutter reads. */
  predicate Harmless(t: Token, shutter: set<Token>) {
    !t.Taint? && (t.FieldOf? ==> !ReadsField(shutter, t.member, t.leaf))
  }

  /** An UNDER-FIRING verdict rests on a body, a resolved shutter, and nothing of it written outside. */
  lemma UnderFiringIsGrounded(mutator: Name, bit: string, movers: map<string, Shutter>, moved: Reach,
                              outside: set<Token>)
    requires VerdictOn(mutator, bit, movers, moved, outside) == UnderFiring
    ensures mutator in moved && bit in movers && movers[bit].resolved && movers[bit].tokens * outside == {}
  {
    hide Match;
    VerdictMeans(mutator, bit, movers, moved, outside);
  }

  lemma HarmlessToken(p: Program, reach: Reach, cases: seq<Case>, mutator: Name, bit: string,
                      movers: map<string, Shutter>, outside: set<Token>, g: Name, t: Token)
    requires Believable(p, reach, cases) && FieldsHaveMembers(ShutterOf(movers, bit).tokens)
    requires VerdictOn(mutator, bit, movers, Moved(reach, cases), outside) == UnderFiring
    requires Runs(p, cases, mutator, g) && g in p.own && t in p.own[g]
    ensures Harmless(t, ShutterOf(movers, bit).tokens)
  {
    hide Exact, Settled, Expanded, Runs;
    HoldsRunsExactly(p, reach, cases);
    var shutter := ShutterOf(movers, bit).tokens;
    var writer := Moved(reach, cases)[mutator];
    if t.FieldOf? && ReadsField(shutter, t.member, t.leaf) {
      assert Member(t.member) in p.own[g];
      FieldReadMatches(writer, shutter, t.member, t.leaf);
    }
  }

  lemma FieldReadMatches(writer: set<Token>, shutter: set<Token>, member: string, leaf: string)
    requires FieldOf(member, leaf) in writer && Member(member) in writer
    requires FieldsHaveMembers(shutter) && ReadsField(shutter, member, leaf)
    ensures Match(writer, shutter) != UnderFiring
  {
    assert leaf in Fields(writer, member);
    if FieldOf(member, leaf) in shutter {
      assert leaf in Fields(shutter, member);
      assert leaf in Fields(writer, member) * Fields(shutter, member);
      assert Meets(writer, shutter, member);
    } else if FieldOf(member, EVERY_FIELD) in shutter {
      assert EVERY_FIELD in Fields(shutter, member);
      assert Meets(writer, shutter, member);
    } else if Fields(shutter, member) != {} {
      var other :| other in Fields(shutter, member);
      assert FieldOf(member, other) in shutter;
      assert Meets(writer, shutter, member);
    } else {
      assert Blind(writer, shutter, member);
    }
    assert member in Common(writer, shutter);
  }
}
