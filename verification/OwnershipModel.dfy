/** The ownership partition of scripts/gen_pipe_field_ownership.py, and the per-verb allowlist of
  barrier-pulled reads it derives as bit masks. */
module OwnershipModel {
  import opened Bits

  const RECORD_SUPPLIED := "RECORD_SUPPLIED"
  const APPLIER_DERIVED := "APPLIER_DERIVED"
  const BARRIER_PULLED := "BARRIER_PULLED"
  const FATAL := "FATAL"
  const CLASSES: seq<string> := [RECORD_SUPPLIED, APPLIER_DERIVED, BARRIER_PULLED, FATAL]

  datatype Row = Row(field: string, class_: string, retires: string, reason: string)
  datatype Forward = Forward(field: string, class_: string, retires: string, mechanism: string)
  datatype ArgRow = ArgRow(field: string, arg0: nat, class_: string, reason: string)

  /** A field's retiring phase, and why it is in its class. */
  datatype Note = Note(phase: string, why: string)

  const DERIVED := Note("-", "derived: Coverage.def's emitted list, and PipeFill.cpp does not refuse it")

  datatype Input = Input(
    accessors: seq<string>, sticky: seq<string>, emitted: seq<string>, refused: seq<string>,
    rows: seq<Row>, forwards: seq<Forward>, args: seq<ArgRow>)

  /** What the join produces: each field's class, retiring phase and reason, the sticky fields' forwards,
      the argument exceptions and the class sizes. */
  datatype Built = Built(
    ownership: map<string, string>, phase: map<string, string>, why: map<string, string>,
    forwards: map<string, Forward>, args: seq<ArgRow>, counts: map<string, nat>)

  /** What parsing the accessor list guarantees: no field twice, and sticky fields are fields. */
  predicate Parsed(n: Input) {
    && (forall i, j :: 0 <= i < j < |n.accessors| ==> n.accessors[i] != n.accessors[j])
    && (forall f :: f in n.sticky ==> f in n.accessors)
  }

  predicate Supplied(n: Input, f: string) {
    f in n.emitted && f !in n.refused
  }

  /** One of the first k rows is about this field. */
  predicate NamedBefore(n: Input, k: nat, f: string) {
    exists i :: 0 <= i < k <= |n.rows| && n.rows[i].field == f
  }

  predicate HasRow(n: Input, f: string) {
    NamedBefore(n, |n.rows|, f)
  }

  /** A hand-written row may exist: its field and class do, the class is not the derived one, and it
      names a retiring phase exactly when it is a debt. */
  predicate RowStands(n: Input, strip: string -> string, r: Row) {
    && r.field in n.accessors && r.class_ in CLASSES && r.class_ != RECORD_SUPPLIED && !Supplied(n, r.field)
    && (if r.class_ == BARRIER_PULLED then strip(r.retires) !in {"", "-"} else strip(r.retires) == "-")
  }

  predicate RowsStand(n: Input, strip: string -> string, k: nat)
    requires k <= |n.rows|
  {
    && (forall i :: 0 <= i < k ==> RowStands(n, strip, n.rows[i]))
    && (forall i, j :: 0 <= i < j < k ==> n.rows[i].field != n.rows[j].field)
  }

  predicate Complete(n: Input) {
    forall f :: f in n.accessors ==> Supplied(n, f) || HasRow(n, f)
  }

  /** The class of a field, as derivation and rows give it. */
  predicate ClassIs(n: Input, f: string, c: string) {
    (Supplied(n, f) && c == RECORD_SUPPLIED) ||
    (!Supplied(n, f) && exists i :: 0 <= i < |n.rows| && n.rows[i].field == f && n.rows[i].class_ == c)
  }

  predicate ForwardsStand(n: Input, k: nat)
    requires k <= |n.forwards|
  {
    && (forall i :: 0 <= i < k ==> n.forwards[i].field in n.sticky && n.forwards[i].class_ in CLASSES &&
                                   ClassIs(n, n.forwards[i].field, n.forwards[i].class_))
    && (forall i, j :: 0 <= i < j < k ==> n.forwards[i].field != n.forwards[j].field)
  }

  predicate StickyCovered(n: Input) {
    forall f :: f in n.sticky ==> exists i :: 0 <= i < |n.forwards| && n.forwards[i].field == f
  }

  predicate ArgsStand(n: Input, k: nat)
    requires k <= |n.args|
  {
    forall i :: 0 <= i < k ==> n.args[i].field in n.accessors && n.args[i].class_ in CLASSES &&
                               !ClassIs(n, n.args[i].field, n.args[i].class_)
  }

  /** Every gate of the join holds. */
  predicate Acceptable(n: Input, strip: string -> string) {
    && RowsStand(n, strip, |n.rows|) && Complete(n)
    && ForwardsStand(n, |n.forwards|) && StickyCovered(n) && ArgsStand(n, |n.args|)
  }

  /** THE GATES, row by row: what makes the join succeed. */
  lemma AcceptableMeans(n: Input, strip: string -> string)
    ensures Acceptable(n, strip) <==>
      && (forall i :: 0 <= i < |n.rows| ==>
            var r := n.rows[i];
            && r.field in n.accessors && !(r.field in n.emitted && r.field !in n.refused)
            && (|| (r.class_ == "BARRIER_PULLED" && strip(r.retires) != "" && strip(r.retires) != "-")
                || ((r.class_ == "APPLIER_DERIVED" || r.class_ == "FATAL") && strip(r.retires) == "-")))
      && (forall i, j :: 0 <= i < j < |n.rows| ==> n.rows[i].field != n.rows[j].field)
      && (forall f :: f in n.accessors ==>
            (f in n.emitted && f !in n.refused) || exists i :: 0 <= i < |n.rows| && n.rows[i].field == f)
      && (forall i :: 0 <= i < |n.forwards| ==>
            n.forwards[i].field in n.sticky && n.forwards[i].class_ in CLASSES &&
            ClassIs(n, n.forwards[i].field, n.forwards[i].class_))
      && (forall i, j :: 0 <= i < j < |n.forwards| ==> n.forwards[i].field != n.forwards[j].field)
      && (forall f :: f in n.sticky ==> exists i :: 0 <= i < |n.forwards| && n.forwards[i].field == f)
      && (forall i :: 0 <= i < |n.args| ==>
            n.args[i].field in n.accessors && n.args[i].class_ in CLASSES &&
            !ClassIs(n, n.args[i].field, n.args[i].class_))
  {
    hide ClassIs;
    forall i | 0 <= i < |n.rows| {
      RowStandsMeans(n, strip, n.rows[i]);
    }
    hide RowStands;
  }

  lemma RowStandsMeans(n: Input, strip: string -> string, r: Row)
    ensures RowStands(n, strip, r) <==>
      && r.field in n.accessors && !(r.field in n.emitted && r.field !in n.refused)
      && (|| (r.class_ == "BARRIER_PULLED" && strip(r.retires) != "" && strip(r.retires) != "-")
          || ((r.class_ == "APPLIER_DERIVED" || r.class_ == "FATAL") && strip(r.retires) == "-"))
  {
    ClassesAre(r.class_);
    ClassNamesDiffer();
    if r.class_ == BARRIER_PULLED {
      assert strip(r.retires) in {"", "-"} <==> strip(r.retires) == "" || strip(r.retires) == "-";
    }
  }

  lemma ClassesAre(c: string)
    ensures c in CLASSES <==>
      c == "RECORD_SUPPLIED" || c == "APPLIER_DERIVED" || c == "BARRIER_PULLED" || c == "FATAL"
  {
    assert CLASSES[0] == RECORD_SUPPLIED && CLASSES[1] == APPLIER_DERIVED && CLASSES[2] == BARRIER_PULLED &&
           CLASSES[3] == FATAL;
  }

  /** The class of a field: the derived one if it is supplied, else its row's. */
  lemma ClassMeans(n: Input, f: string, c: string)
    ensures ClassIs(n, f, c) <==>
      if f in n.emitted && f !in n.refused then c == "RECORD_SUPPLIED"
      else exists i :: 0 <= i < |n.rows| && n.rows[i].field == f && n.rows[i].class_ == c
  {
  }

  // ---- counting the classes -----------------------------------------------------------------

  function CountOf(accessors: seq<string>, ownership: map<string, string>, c: string): nat {
    if accessors == [] then 0
    else
      var last := accessors[|accessors| - 1];
      CountOf(accessors[..|accessors| - 1], ownership, c) + (if last in ownership && ownership[last] == c then 1 else 0)
  }

  /** The four class sizes partition the field set. */
  lemma {:induction false} CountsPartition(accessors: seq<string>, ownership: map<string, string>)
    requires forall f :: f in accessors ==> f in ownership && ownership[f] in CLASSES
    ensures CountOf(accessors, ownership, RECORD_SUPPLIED) + CountOf(accessors, ownership, APPLIER_DERIVED) +
            CountOf(accessors, ownership, BARRIER_PULLED) + CountOf(accessors, ownership, FATAL) == |accessors|
  {
    if accessors != [] {
      var before := accessors[..|accessors| - 1];
      assert forall f :: f in before ==> f in accessors;
      CountsPartition(before, ownership);
      var last := accessors[|accessors| - 1];
      assert last in accessors;
      var c := ownership[last];
      assert c == CLASSES[0] || c == CLASSES[1] || c == CLASSES[2] || c == CLASSES[3];
      ClassNamesDiffer();
    }
  }

  /** A class is as large as the set of its fields. */
  lemma {:induction false} CountIsSize(accessors: seq<string>, ownership: map<string, string>, c: string)
    requires forall i, j :: 0 <= i < j < |accessors| ==> accessors[i] != accessors[j]
    ensures CountOf(accessors, ownership, c) == |set f | f in accessors && f in ownership && ownership[f] == c|
  {
    if accessors != [] {
      var before, last := accessors[..|accessors| - 1], accessors[|accessors| - 1];
      CountIsSize(before, ownership, c);
      ClassGrows(before, last, ownership, c);
      assert accessors == before + [last];
    }
  }

  lemma ClassGrows(before: seq<string>, last: string, ownership: map<string, string>, c: string)
    requires last !in before
    ensures |set f | f in before + [last] && f in ownership && ownership[f] == c| ==
            |set f | f in before && f in ownership && ownership[f] == c| +
            if last in ownership && ownership[last] == c then 1 else 0
  {
    var few := set f | f in before && f in ownership && ownership[f] == c;
    assert (set f | f in before + [last] && f in ownership && ownership[f] == c) ==
           few + if last in ownership && ownership[last] == c then {last} else {};
  }

  lemma ClassNamesDiffer()
    ensures RECORD_SUPPLIED != APPLIER_DERIVED && RECORD_SUPPLIED != BARRIER_PULLED && RECORD_SUPPLIED != FATAL
    ensures APPLIER_DERIVED != BARRIER_PULLED && APPLIER_DERIVED != FATAL && BARRIER_PULLED != FATAL
  {
    assert RECORD_SUPPLIED[0] == 'R' && APPLIER_DERIVED[0] == 'A' && BARRIER_PULLED[0] == 'B' && FATAL[0] == 'F';
  }

  // ---- the allowlist ------------------------------------------------------------------------

  const WAIT_NONE := "kWaitNone"

  /** The 128-bit mask of a verb: two 64-bit words. */
  type Words = (nat, nat)

  predicate HasBit(words: Words, i: nat) {
    i < 128 && Field(if i < 64 then words.0 else words.1, i % 64, 1) == 1
  }

  datatype Tables = Tables(
    verbOps: seq<(string, string)>, waits: map<string, string>, verbClass: map<string, string>,
    classMask: map<string, Words>)

  predicate Stamped(t: Tables, verb: string) {
    exists i :: 0 <= i < |t.verbOps| && t.verbOps[i].1 == verb
  }

  predicate Waits(t: Tables, op: string) {
    op in t.waits && t.waits[op] != WAIT_NONE
  }

  /** Every op that stamps the verb waits for its record. */
  predicate Barriered(t: Tables, verb: string) {
    Stamped(t, verb) && forall i :: 0 <= i < |t.verbOps| && t.verbOps[i].1 == verb ==> Waits(t, t.verbOps[i].0)
  }

  /** A field still read behind the barrier. */
  predicate IsDebt(built: Built, field: string) {
    field in built.ownership && built.ownership[field] == BARRIER_PULLED
  }

  /** The verb's class may read the field with this number. */
  predicate MayRead(t: Tables, verb: string, index: nat) {
    verb in t.verbClass && t.verbClass[verb] in t.classMask && HasBit(t.classMask[t.verbClass[verb]], index)
  }

  /** THE ADMISSION RULE: the field is a debt, its verb's class may read it, and either every op of the
      verb waits or the field's retiring phase is not this one; a verb nobody stamps admits nothing. */
  predicate Admitted(t: Tables, built: Built, owed: string -> bool, field: string, index: nat, verb: string) {
    && Stamped(t, verb)
    && IsDebt(built, field)
    && MayRead(t, verb, index)
    && (Barriered(t, verb) || !(field in built.phase && owed(built.phase[field])))
  }

  /** Bit i of the two words, in arithmetic. */
  lemma HasBitMeans(words: Words, i: nat)
    ensures HasBit(words, i) <==>
      i < 128 && (if i < 64 then words.0 / Pow2(i) else words.1 / Pow2(i - 64)) % 2 == 1
  {
    hide Field;
    if i < 128 {
      FieldIsDivision(if i < 64 then words.0 else words.1, i % 64, 1);
      assert Pow2(1) == 2;
    }
  }

  /** THE RULE, on the tables. */
  lemma AdmittedMeans(t: Tables, built: Built, owed: string -> bool, field: string, index: nat, verb: string)
    ensures Admitted(t, built, owed, field, index, verb) <==>
      && (exists i :: 0 <= i < |t.verbOps| && t.verbOps[i].1 == verb)
      && field in built.ownership && built.ownership[field] == "BARRIER_PULLED"
      && verb in t.verbClass && t.verbClass[verb] in t.classMask && index < 128
      && (var words := t.classMask[t.verbClass[verb]];
          (if index < 64 then words.0 / Pow2(index) else words.1 / Pow2(index - 64)) % 2 == 1)
      && ((forall i :: 0 <= i < |t.verbOps| && t.verbOps[i].1 == verb ==>
             var op := t.verbOps[i].0;
             op in t.waits && t.waits[op] != "kWaitNone") ||
          !(field in built.phase && owed(built.phase[field])))
  {
    hide HasBit, Pow2;
    if verb in t.verbClass && t.verbClass[verb] in t.classMask {
      HasBitMeans(t.classMask[t.verbClass[verb]], index);
    }
  }

  /** Taking waits away - whichever ops lose them - can only shrink what a verb admits. */
  lemma FewerWaitsAdmitLess(t: Tables, fewer: map<string, string>, built: Built,
                            owed: string -> bool, field: string, index: nat, verb: string)
    requires forall op :: Waits(t.(waits := fewer), op) ==> Waits(t, op)
    requires Admitted(t.(waits := fewer), built, owed, field, index, verb)
    ensures Admitted(t, built, owed, field, index, verb)
  {
    var less := t.(waits := fewer);
    if Barriered(less, verb) {
      assert forall i :: 0 <= i < |t.verbOps| && t.verbOps[i].1 == verb ==> Waits(less, t.verbOps[i].0);
    }
  }

  /** Setting bit k sets bit k and no other. */
  lemma SetBit(word: nat, k: nat, j: nat)
    requires k < 64 && word < Pow2(64)
    ensures Field(Or(word, ShiftLeft(1, k)), j, 1) == if j == k then 1 else Field(word, j, 1)
    ensures Or(word, ShiftLeft(1, k)) < Pow2(64)
  {
    assert Pow2(1) == 2;
    ShiftedField(1, k, 1, j, 1);
    OrFields(word, ShiftLeft(1, k), j, 1);
    OrZero(Field(word, j, 1));
    OneBit(word, j);
    assert Or(0, 1) == 1 && Or(1, 1) == 1;
    ShiftLeftFits(1, k, 1);
    Pow2Grows(k + 1, 64);
    OrFits(word, ShiftLeft(1, k), 64);
  }

  lemma OneBit(word: nat, j: nat)
    ensures Field(word, j, 1) == 0 || Field(word, j, 1) == 1
  {
    var v := ShiftRight(word, j);
    assert Mask(v, 1) == 2 * Mask(v / 2, 0) + v % 2;
  }

  lemma NoBits(j: nat)
    ensures Field(0, j, 1) == 0
  {
    ShiftRightClears(0, j);
    assert Mask(0, 1) == 2 * Mask(0, 0) + 0;
  }
}
