/** The join of scripts/gen_pipe_field_ownership.py, filling dictionaries and lists in loops. */
module FieldOwnership {
  import opened Wrappers
  import opened Bits
  import opened OwnershipModel

  /** Which gate stopped the build. */
  datatype Gate =
    | NotAField | NotAClass | ClaimsDerived | TwoClasses | NoRetiringPhase | StrayPhase | NoClass
    | NotSticky | TwoForwards | ForwardDisagrees | ForwardMissing | NarrowsNothing

  /** The derived half: emitted, and not refused. */
  method Supply(n: Input) returns (ownership: map<string, string>, notes: map<string, Note>)
    ensures forall f :: f in ownership <==> Supplied(n, f)
    ensures forall f :: f in ownership ==> ownership[f] == RECORD_SUPPLIED
    ensures notes.Keys == ownership.Keys && forall f :: f in notes ==> notes[f] == DERIVED
  {
    ownership, notes := map[], map[];
    for i := 0 to |n.emitted|
      invariant forall f :: f in ownership <==> f in n.emitted[..i] && f !in n.refused
      invariant forall f :: f in ownership ==> ownership[f] == RECORD_SUPPLIED
      invariant notes.Keys == ownership.Keys && forall f :: f in notes ==> notes[f] == DERIVED
    {
      assert n.emitted[..i + 1] == n.emitted[..i] + [n.emitted[i]];
      if n.emitted[i] !in n.refused {
        ownership := ownership[n.emitted[i] := RECORD_SUPPLIED];
        notes := notes[n.emitted[i] := DERIVED];
      }
    }
    assert n.emitted[..|n.emitted|] == n.emitted;
  }

  predicate RowPasses(n: Input, strip: string -> string, r: Row, ownership: map<string, string>) {
    && r.field in n.accessors && r.class_ in CLASSES && r.class_ != RECORD_SUPPLIED && r.field !in ownership
    && (if r.class_ == BARRIER_PULLED then strip(r.retires) !in {"", "-"} else strip(r.retires) == "-")
  }

  /** Which of the gates one row trips, in the order they are looked at. */
  method CheckRow(n: Input, strip: string -> string, r: Row, ownership: map<string, string>)
    returns (gate: Option<Gate>)
    ensures gate.None? <==> RowPasses(n, strip, r, ownership)
  {
    if r.field !in n.accessors {
      return Some(NotAField);
    }
    if r.class_ !in CLASSES {
      return Some(NotAClass);
    }
    if r.class_ == RECORD_SUPPLIED {
      return Some(ClaimsDerived);
    }
    if r.field in ownership {
      return Some(TwoClasses);
    }
    if r.class_ == BARRIER_PULLED && strip(r.retires) in {"", "-"} {
      return Some(NoRetiringPhase);
    }
    if r.class_ != BARRIER_PULLED && strip(r.retires) != "-" {
      return Some(StrayPhase);
    }
    return None;
  }

  /** The derived fields and those of the first i rows, each in its class. */
  ghost predicate Joined(n: Input, i: nat, ownership: map<string, string>, notes: map<string, Note>) {
    && i <= |n.rows| && notes.Keys == ownership.Keys
    && (forall f :: f in ownership <==> Supplied(n, f) || NamedBefore(n, i, f))
    && (forall f :: f in ownership && Supplied(n, f) ==> ownership[f] == RECORD_SUPPLIED && notes[f] == DERIVED)
    && (forall k :: 0 <= k < i ==> n.rows[k].field in ownership && !Supplied(n, n.rows[k].field))
    && (forall k :: 0 <= k < i ==> ownership[n.rows[k].field] == n.rows[k].class_)
    && (forall k :: 0 <= k < i ==> notes[n.rows[k].field] == Note(n.rows[k].retires, n.rows[k].reason))
  }

  lemma RowPassesStands(n: Input, strip: string -> string, r: Row, ownership: map<string, string>)
    requires RowPasses(n, strip, r, ownership) && (Supplied(n, r.field) ==> r.field in ownership)
    ensures RowStands(n, strip, r)
  {
    hide Supplied;
  }

  lemma JoinStep(n: Input, strip: string -> string, i: nat, ownership: map<string, string>, notes: map<string, Note>)
    requires i < |n.rows| && Joined(n, i, ownership, notes) && RowsStand(n, strip, i)
    requires RowPasses(n, strip, n.rows[i], ownership)
    ensures RowsStand(n, strip, i + 1)
    ensures var r := n.rows[i];
      Joined(n, i + 1, ownership[r.field := r.class_], notes[r.field := Note(r.retires, r.reason)])
  {
    hide RowPasses, RowsStand, Joined;
    RowsGrow(n, strip, i, ownership, notes);
    RowIsNew(n, strip, n.rows[i], ownership);
    OwnersGrow(n, i, ownership, notes);
  }

  lemma RowIsNew(n: Input, strip: string -> string, r: Row, ownership: map<string, string>)
    requires RowPasses(n, strip, r, ownership)
    ensures r.field !in ownership
  {
  }

  lemma RowsGrow(n: Input, strip: string -> string, i: nat, ownership: map<string, string>, notes: map<string, Note>)
    requires i < |n.rows| && Joined(n, i, ownership, notes) && RowsStand(n, strip, i)
    requires RowPasses(n, strip, n.rows[i], ownership)
    ensures RowsStand(n, strip, i + 1)
  {
    hide Supplied, RowStands, NamedBefore;
    RowPassesStands(n, strip, n.rows[i], ownership);
    assert forall k :: 0 <= k < i ==> n.rows[k].field != n.rows[i].field;
  }

  lemma OwnersGrow(n: Input, i: nat, ownership: map<string, string>, notes: map<string, Note>)
    requires i < |n.rows| && Joined(n, i, ownership, notes) && n.rows[i].field !in ownership
    ensures var r := n.rows[i];
      Joined(n, i + 1, ownership[r.field := r.class_], notes[r.field := Note(r.retires, r.reason)])
  {
    hide Supplied, NamedBefore;
    var r := n.rows[i];
    var grown := ownership[r.field := r.class_];
    forall f ensures f in grown <==> Supplied(n, f) || NamedBefore(n, i + 1, f) {
      NamedGrows(n, i, f);
    }
  }

  lemma NamedGrows(n: Input, i: nat, f: string)
    requires i < |n.rows|
    ensures NamedBefore(n, i + 1, f) <==> NamedBefore(n, i, f) || n.rows[i].field == f
  {
  }

  lemma JoinFails(n: Input, strip: string -> string, i: nat, ownership: map<string, string>, notes: map<string, Note>)
    requires i < |n.rows| && Joined(n, i, ownership, notes) && !RowPasses(n, strip, n.rows[i], ownership)
    ensures !RowsStand(n, strip, |n.rows|)
  {
    hide Supplied;
    if n.rows[i].field in ownership && !Supplied(n, n.rows[i].field) {
      var k :| 0 <= k < i && n.rows[k].field == n.rows[i].field;
    }
  }

  /** The join's result: who owns what, and for how long. */
  ghost predicate JoinResult(n: Input, ownership: map<string, string>, notes: map<string, Note>) {
    && notes.Keys == ownership.Keys
    && (forall f :: f in ownership <==> Supplied(n, f) || HasRow(n, f))
    && (forall f, c :: f in ownership ==> (ClassIs(n, f, c) <==> ownership[f] == c))
    && (forall f :: f in notes && Supplied(n, f) ==> notes[f] == DERIVED)
    && (forall i :: 0 <= i < |n.rows| ==>
          n.rows[i].field in notes && notes[n.rows[i].field] == Note(n.rows[i].retires, n.rows[i].reason))
  }

  lemma JoinEnds(n: Input, ownership: map<string, string>, notes: map<string, Note>)
    requires Joined(n, |n.rows|, ownership, notes)
    ensures JoinResult(n, ownership, notes)
  {
    hide Supplied;
    forall f, c | f in ownership ensures ClassIs(n, f, c) <==> ownership[f] == c {
      if !Supplied(n, f) {
        var k :| 0 <= k < |n.rows| && n.rows[k].field == f;
      }
    }
  }

  /** The hand-written half joined to the derived one. */
  method JoinRows(n: Input, strip: string -> string) returns (r: Result<(map<string, string>, map<string, Note>), Gate>)
    ensures r.Ok? <==> RowsStand(n, strip, |n.rows|)
    ensures r.Ok? ==> JoinResult(n, r.value.0, r.value.1)
  {
    hide RowsStand, RowPasses, Joined, JoinResult;
    var ownership, notes := Supply(n);
    JoinStarts(n, strip, ownership, notes);
    for i := 0 to |n.rows|
      invariant RowsStand(n, strip, i) && Joined(n, i, ownership, notes)
    {
      var row := n.rows[i];
      var gate := CheckRow(n, strip, row, ownership);
      if gate.Some? {
        JoinFails(n, strip, i, ownership, notes);
        return Err(gate.value);
      }
      JoinStep(n, strip, i, ownership, notes);
      ownership := ownership[row.field := row.class_];
      notes := notes[row.field := Note(row.retires, row.reason)];
    }
    JoinEnds(n, ownership, notes);
    return Ok((ownership, notes));
  }

  lemma JoinStarts(n: Input, strip: string -> string, ownership: map<string, string>, notes: map<string, Note>)
    requires forall f :: f in ownership <==> Supplied(n, f)
    requires forall f :: f in ownership ==> ownership[f] == RECORD_SUPPLIED
    requires notes.Keys == ownership.Keys && forall f :: f in notes ==> notes[f] == DERIVED
    ensures RowsStand(n, strip, 0) && Joined(n, 0, ownership, notes)
  {
    hide Supplied;
  }

  // ---- forwards and argument rows -----------------------------------------------------------

  /** Every sticky field's forward row, by field. */
  ghost predicate ForwardMap(n: Input, forwards: map<string, Forward>, k: nat)
    requires k <= |n.forwards|
  {
    && (forall f :: f in forwards <==> exists i :: 0 <= i < k && n.forwards[i].field == f)
    && (forall i :: 0 <= i < k ==> n.forwards[i].field in forwards && forwards[n.forwards[i].field] == n.forwards[i])
  }

  predicate ForwardPasses(n: Input, ownership: map<string, string>, seen: map<string, Forward>, forward: Forward) {
    && forward.field in n.sticky && forward.field !in seen && forward.class_ in CLASSES
    && forward.field in ownership && ownership[forward.field] == forward.class_
  }

  lemma ForwardStep(n: Input, ownership: map<string, string>, notes: map<string, Note>, seen: map<string, Forward>,
                    i: nat)
    requires JoinResult(n, ownership, notes) && i < |n.forwards| && ForwardsStand(n, i) && ForwardMap(n, seen, i)
    requires ForwardPasses(n, ownership, seen, n.forwards[i])
    ensures ForwardsStand(n, i + 1) && ForwardMap(n, seen[n.forwards[i].field := n.forwards[i]], i + 1)
  {
    hide Supplied, ClassIs, ForwardsStand, ForwardPasses, ForwardMap;
    ForwardStands(n, ownership, notes, seen, i);
    ForwardMapped(n, ownership, seen, i);
  }

  lemma ForwardStands(n: Input, ownership: map<string, string>, notes: map<string, Note>, seen: map<string, Forward>,
                      i: nat)
    requires JoinResult(n, ownership, notes) && i < |n.forwards| && ForwardsStand(n, i) && ForwardMap(n, seen, i)
    requires ForwardPasses(n, ownership, seen, n.forwards[i])
    ensures ForwardsStand(n, i + 1)
  {
    hide Supplied, ClassIs;
    assert forall k :: 0 <= k < i ==> n.forwards[k].field in seen;
    assert ClassIs(n, n.forwards[i].field, n.forwards[i].class_);
  }

  lemma ForwardMapped(n: Input, ownership: map<string, string>, seen: map<string, Forward>, i: nat)
    requires i < |n.forwards| && ForwardMap(n, seen, i) && ForwardPasses(n, ownership, seen, n.forwards[i])
    ensures ForwardMap(n, seen[n.forwards[i].field := n.forwards[i]], i + 1)
  {
    assert forall k :: 0 <= k < i ==> n.forwards[k].field in seen;
  }

  lemma ForwardFails(n: Input, ownership: map<string, string>, notes: map<string, Note>, seen: map<string, Forward>,
                     i: nat)
    requires JoinResult(n, ownership, notes) && i < |n.forwards| && ForwardMap(n, seen, i)
    requires n.forwards[i].field in n.sticky ==> n.forwards[i].field in ownership
    requires !ForwardPasses(n, ownership, seen, n.forwards[i])
    ensures !ForwardsStand(n, |n.forwards|)
  {
    hide Supplied, ClassIs;
    var forward := n.forwards[i];
    if forward.field in seen {
      var k :| 0 <= k < i && n.forwards[k].field == forward.field;
    } else if forward.field in ownership && ownership[forward.field] != forward.class_ {
      assert !ClassIs(n, forward.field, forward.class_);
    }
  }

  lemma StickyOwned(n: Input, ownership: map<string, string>, notes: map<string, Note>)
    requires Parsed(n) && JoinResult(n, ownership, notes) && Complete(n)
    ensures forall f :: f in n.sticky ==> f in ownership
  {
    hide Supplied, ClassIs;
  }

  method CheckForward(n: Input, ownership: map<string, string>, seen: map<string, Forward>, forward: Forward)
    returns (gate: Option<Gate>)
    requires forward.field in n.sticky ==> forward.field in ownership
    ensures gate.None? <==> ForwardPasses(n, ownership, seen, forward)
  {
    if forward.field !in n.sticky {
      return Some(NotSticky);
    }
    if forward.field in seen {
      return Some(TwoForwards);
    }
    if forward.class_ !in CLASSES {
      return Some(NotAClass);
    }
    if ownership[forward.field] != forward.class_ {
      return Some(ForwardDisagrees);
    }
    return None;
  }

  method CheckForwards(n: Input, ownership: map<string, string>, ghost notes: map<string, Note>)
    returns (r: Result<map<string, Forward>, Gate>)
    requires Parsed(n) && JoinResult(n, ownership, notes) && Complete(n)
    ensures r.Ok? <==> ForwardsStand(n, |n.forwards|) && StickyCovered(n)
    ensures r.Ok? ==> r.value.Keys == (set f | f in n.sticky) && ForwardMap(n, r.value, |n.forwards|)
  {
    hide ForwardsStand, ForwardPasses, JoinResult, Complete, ForwardMap, StickyCovered;
    StickyOwned(n, ownership, notes);
    var seen: map<string, Forward> := map[];
    NoForwards(n);
    for i := 0 to |n.forwards|
      invariant ForwardsStand(n, i) && ForwardMap(n, seen, i)
    {
      var gate := CheckForward(n, ownership, seen, n.forwards[i]);
      if gate.Some? {
        ForwardFails(n, ownership, notes, seen, i);
        return Err(gate.value);
      }
      ForwardStep(n, ownership, notes, seen, i);
      seen := seen[n.forwards[i].field := n.forwards[i]];
    }
    StickySeen(n, seen);
    for j := 0 to |n.sticky|
      invariant forall k :: 0 <= k < j ==> n.sticky[k] in seen
    {
      if n.sticky[j] !in seen {
        assert n.sticky[j] in n.sticky;
        return Err(ForwardMissing);
      }
    }
    return Ok(seen);
  }

  lemma NoForwards(n: Input)
    ensures ForwardsStand(n, 0) && ForwardMap(n, map[], 0)
  {
  }

  lemma StickySeen(n: Input, seen: map<string, Forward>)
    requires ForwardMap(n, seen, |n.forwards|) && ForwardsStand(n, |n.forwards|)
    ensures StickyCovered(n) <==> forall f :: f in n.sticky ==> f in seen
    ensures seen.Keys <= set f | f in n.sticky
  {
    hide ClassIs;
  }

  method CheckArgs(n: Input, ownership: map<string, string>, ghost notes: map<string, Note>)
    returns (r: Result<seq<ArgRow>, Gate>)
    requires JoinResult(n, ownership, notes) && Complete(n)
    ensures r.Ok? <==> ArgsStand(n, |n.args|)
    ensures r.Ok? ==> r.value == n.args
  {
    hide Supplied, ClassIs;
    var rows: seq<ArgRow> := [];
    for i := 0 to |n.args|
      invariant ArgsStand(n, i) && rows == n.args[..i]
    {
      var arg := n.args[i];
      if arg.field !in n.accessors {
        return Err(NotAField);
      }
      if arg.class_ !in CLASSES {
        return Err(NotAClass);
      }
      if arg.class_ == ownership[arg.field] {
        assert ClassIs(n, arg.field, arg.class_);
        return Err(NarrowsNothing);
      }
      assert !ClassIs(n, arg.field, arg.class_);
      rows := rows + [arg];
    }
    return Ok(rows);
  }

  method MissingField(n: Input, ownership: map<string, string>, ghost notes: map<string, Note>) returns (missing: bool)
    requires JoinResult(n, ownership, notes)
    ensures missing <==> !Complete(n)
  {
    hide Supplied, HasRow;
    for i := 0 to |n.accessors|
      invariant forall k :: 0 <= k < i ==> n.accessors[k] in ownership
    {
      if n.accessors[i] !in ownership {
        assert n.accessors[i] in n.accessors;
        return true;
      }
    }
    return false;
  }

  method CountClass(accessors: seq<string>, ownership: map<string, string>, c: string) returns (count: nat)
    requires forall f :: f in accessors ==> f in ownership
    ensures count == CountOf(accessors, ownership, c)
  {
    count := 0;
    for i := 0 to |accessors|
      invariant count == CountOf(accessors[..i], ownership, c)
    {
      assert accessors[..i + 1][..i] == accessors[..i];
      assert accessors[i] in accessors;
      if ownership[accessors[i]] == c {
        count := count + 1;
      }
    }
    assert accessors[..|accessors|] == accessors;
  }

  /** The notes of a join, taken apart into the two tables it returns. */
  ghost predicate Noted(n: Input, built: Built) {
    built.phase.Keys == built.why.Keys == built.ownership.Keys &&
    JoinResult(n, built.ownership, map f | f in built.phase :: Note(built.phase[f], built.why[f]))
  }

  /** THE JOIN: it succeeds exactly when every gate holds; then every field is in the one class that the
      derivation or its only row gives it, with that row's phase and reason, every sticky field has its
      forward row and no other field one, the argument exceptions are those given, and the four class
      sizes add up to the number of fields. */
  method Build(n: Input, strip: string -> string) returns (r: Result<Built, Gate>)
    requires Parsed(n)
    ensures r.Ok? <==> Acceptable(n, strip)
    ensures r.Ok? ==>
      && Noted(n, r.value)
      && (forall f :: f in n.accessors ==> f in r.value.ownership && r.value.ownership[f] in CLASSES)
      && r.value.forwards.Keys == (set f | f in n.sticky) && ForwardMap(n, r.value.forwards, |n.forwards|)
      && r.value.args == n.args
      && r.value.counts.Keys == {RECORD_SUPPLIED, APPLIER_DERIVED, BARRIER_PULLED, FATAL}
      && (forall c :: c in r.value.counts ==> r.value.counts[c] == CountOf(n.accessors, r.value.ownership, c))
      && r.value.counts[RECORD_SUPPLIED] + r.value.counts[APPLIER_DERIVED] + r.value.counts[BARRIER_PULLED] +
         r.value.counts[FATAL] == |n.accessors|
  {
    hide RowsStand, ForwardsStand, StickyCovered, ArgsStand, JoinResult, CountOf, ForwardMap;
    var joined := JoinRows(n, strip);
    if joined.Err? {
      return Err(joined.error);
    }
    var (ownership, notes) := joined.value;
    var missing := MissingField(n, ownership, notes);
    if missing {
      return Err(NoClass);
    }
    var forwards := CheckForwards(n, ownership, notes);
    if forwards.Err? {
      return Err(forwards.error);
    }
    var args := CheckArgs(n, ownership, notes);
    if args.Err? {
      return Err(args.error);
    }
    JoinedClasses(n, strip, ownership, notes);
    var supplied := CountClass(n.accessors, ownership, RECORD_SUPPLIED);
    var derived := CountClass(n.accessors, ownership, APPLIER_DERIVED);
    var pulled := CountClass(n.accessors, ownership, BARRIER_PULLED);
    var fatal := CountClass(n.accessors, ownership, FATAL);
    CountsPartition(n.accessors, ownership);
    ClassNamesDiffer();
    var counts :=
      map[RECORD_SUPPLIED := supplied, APPLIER_DERIVED := derived, BARRIER_PULLED := pulled, FATAL := fatal];
    var phase := map f | f in notes :: notes[f].phase;
    var why := map f | f in notes :: notes[f].why;
    NotesKeys(n, ownership, notes);
    assert notes == map f | f in phase :: Note(phase[f], why[f]);
    return Ok(Built(ownership, phase, why, forwards.value, args.value, counts));
  }

  /** WHAT THE JOIN SAYS, entry by entry, of whatever `Build` returns for an input it accepts. */
  lemma BuiltMeans(n: Input, strip: string -> string, built: Built)
    requires Parsed(n) && Acceptable(n, strip) && Noted(n, built) && ForwardMap(n, built.forwards, |n.forwards|)
    requires forall c :: c in built.counts ==> built.counts[c] == CountOf(n.accessors, built.ownership, c)
    ensures forall f :: f in built.ownership <==>
      (f in n.emitted && f !in n.refused) || exists i :: 0 <= i < |n.rows| && n.rows[i].field == f
    ensures forall f :: f in n.emitted && f !in n.refused ==>
      f in built.ownership && f in built.phase && built.ownership[f] == "RECORD_SUPPLIED" && built.phase[f] == "-"
    ensures forall i :: 0 <= i < |n.rows| ==>
      var row := n.rows[i];
      && row.field in built.ownership && built.ownership[row.field] == row.class_
      && row.field in built.phase && row.field in built.why
      && built.phase[row.field] == row.retires && built.why[row.field] == row.reason
    ensures forall i :: 0 <= i < |n.forwards| ==>
      n.forwards[i].field in built.forwards && built.forwards[n.forwards[i].field] == n.forwards[i]
    ensures forall c | c in built.counts ::
      built.counts[c] == |set f | f in n.accessors && f in built.ownership && built.ownership[f] == c|
  {
    hide CountOf, Noted, RowsStand, Complete, ForwardsStand, StickyCovered, ArgsStand;
    forall c {
      CountIsSize(n.accessors, built.ownership, c);
    }
    forall f | f in n.emitted && f !in n.refused {
      SuppliedEntry(n, built, f);
    }
    forall i | 0 <= i < |n.rows| {
      RowEntry(n, strip, built, i);
    }
    OwnedFields(n, built);
  }

  lemma OwnedFields(n: Input, built: Built)
    requires Noted(n, built)
    ensures forall f :: f in built.ownership <==>
      (f in n.emitted && f !in n.refused) || exists i :: 0 <= i < |n.rows| && n.rows[i].field == f
  {
    hide ClassIs;
  }

  lemma SuppliedEntry(n: Input, built: Built, f: string)
    requires Noted(n, built) && f in n.emitted && f !in n.refused
    ensures f in built.ownership && f in built.phase && built.ownership[f] == "RECORD_SUPPLIED" && built.phase[f] == "-"
  {
    hide HasRow;
    assert Supplied(n, f) && ClassIs(n, f, RECORD_SUPPLIED);
    var notes := map f | f in built.phase :: Note(built.phase[f], built.why[f]);
    assert notes[f] == DERIVED;
  }

  lemma RowEntry(n: Input, strip: string -> string, built: Built, i: nat)
    requires RowsStand(n, strip, |n.rows|) && Noted(n, built) && i < |n.rows|
    ensures var row := n.rows[i];
      && row.field in built.ownership && built.ownership[row.field] == row.class_
      && row.field in built.phase && row.field in built.why
      && built.phase[row.field] == row.retires && built.why[row.field] == row.reason
  {
    hide HasRow, Supplied;
    var row := n.rows[i];
    assert RowStands(n, strip, row);
    var notes := map f | f in built.phase :: Note(built.phase[f], built.why[f]);
    assert row.field in notes && notes[row.field] == Note(row.retires, row.reason);
    assert ClassIs(n, row.field, row.class_);
  }

  lemma NotesKeys(n: Input, ownership: map<string, string>, notes: map<string, Note>)
    requires JoinResult(n, ownership, notes)
    ensures notes.Keys == ownership.Keys
  {
    hide Supplied, HasRow, ClassIs;
  }

  lemma JoinedClasses(n: Input, strip: string -> string, ownership: map<string, string>, notes: map<string, Note>)
    requires JoinResult(n, ownership, notes) && RowsStand(n, strip, |n.rows|) && Complete(n)
    ensures forall f :: f in n.accessors ==> f in ownership && ownership[f] in CLASSES
  {
    hide Supplied;
    forall f | f in n.accessors ensures f in ownership && ownership[f] in CLASSES {
      if Supplied(n, f) {
        assert ClassIs(n, f, RECORD_SUPPLIED);
        assert CLASSES[0] == RECORD_SUPPLIED;
      } else {
        var i :| 0 <= i < |n.rows| && n.rows[i].field == f;
        assert ClassIs(n, f, n.rows[i].class_);
        assert RowStands(n, strip, n.rows[i]);
      }
    }
  }
}
