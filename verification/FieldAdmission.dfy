/** The allowlist derivation of scripts/gen_pipe_field_ownership.py: for every verb the mask of the
  fields its records may still pull behind the barrier, and the same facts as <field>@<verb> pairs. */
module FieldAdmission {
  import opened Wrappers
  import opened Bits
  import opened OwnershipModel

  datatype AdmitError = NoVerbClass(verb: string) | FieldIndexTooLarge(index: nat)

  type Pair = (string, string)

  /** What the parsers of the tables and the join promise; names are words. */
  predicate Derivable(t: Tables, built: Built, accessors: seq<string>) {
    && (forall v :: v in t.verbClass ==> t.verbClass[v] in t.classMask)
    && (forall f :: f in accessors ==> f in built.ownership && f in built.phase)
    && Names(accessors)
  }

  /** Each field once, and no name holds the sign that separates it from its verb. */
  predicate Names(accessors: seq<string>) {
    && (forall i, j :: 0 <= i < j < |accessors| ==> accessors[i] != accessors[j])
    && (forall i :: 0 <= i < |accessors| ==> '@' !in accessors[i])
  }

  /** A debt whose number lies outside a two-word mask. */
  ghost predicate Overflows(built: Built, accessors: seq<string>) {
    exists i: nat :: 128 <= i < |accessors| && IsDebt(built, accessors[i])
  }

  ghost predicate AdmittedAt(t: Tables, built: Built, owed: string -> bool, accessors: seq<string>, verb: string,
                             i: nat) {
    i < |accessors| && Admitted(t, built, owed, accessors[i], i, verb)
  }

  /** Bit i of the mask is set exactly when field i is admitted, for the fields before k. */
  ghost predicate MaskIs(t: Tables, built: Built, owed: string -> bool, accessors: seq<string>, verb: string,
                         k: nat, words: Words) {
    && words.0 < Pow2(64) && words.1 < Pow2(64)
    && forall i: nat :: HasBit(words, i) <==> i < k && AdmittedAt(t, built, owed, accessors, verb, i)
  }

  ghost predicate PairAdmitted(t: Tables, built: Built, owed: string -> bool, accessors: seq<string>, p: Pair, k: nat) {
    exists i: nat :: i < k && AdmittedAt(t, built, owed, accessors, p.1, i) && accessors[i] == p.0
  }

  /** The pairs of one verb, before field k, each once. */
  ghost predicate PairsAre(t: Tables, built: Built, owed: string -> bool, accessors: seq<string>, verb: string,
                           k: nat, pairs: seq<Pair>) {
    forall p: Pair ::
      multiset(pairs)[p] == if p.1 == verb && PairAdmitted(t, built, owed, accessors, p, k) then 1 else 0
  }

  function WithBit(words: Words, i: nat): Words
    requires i < 128
  {
    if i < 64 then (Or(words.0, ShiftLeft(1, i)), words.1) else (words.0, Or(words.1, ShiftLeft(1, i - 64)))
  }

  /** Setting one bit of the two-word mask leaves all the others alone and keeps both words in 64 bits. */
  lemma WithBitSets(words: Words, i: nat, j: nat)
    requires i < 128 && words.0 < Pow2(64) && words.1 < Pow2(64)
    ensures HasBit(WithBit(words, i), j) <==> (j == i || HasBit(words, j))
    ensures WithBit(words, i).0 < Pow2(64) && WithBit(words, i).1 < Pow2(64)
  {
    hide Field, Or, ShiftLeft, Pow2;
    SetBit(if i < 64 then words.0 else words.1, i % 64, j % 64);
  }

  lemma EmptyMask(t: Tables, built: Built, owed: string -> bool, accessors: seq<string>, verb: string)
    ensures MaskIs(t, built, owed, accessors, verb, 0, (0, 0)) && PairsAre(t, built, owed, accessors, verb, 0, [])
  {
    hide Field, AdmittedAt;
    forall i: nat ensures !HasBit((0, 0), i) {
      NoBits(i % 64);
    }
    Pow2Grows(0, 64);
  }

  /** A verb nobody stamps keeps the empty mask whatever it is asked about. */
  lemma NothingUnstamped(t: Tables, built: Built, owed: string -> bool, accessors: seq<string>, verb: string, k: nat)
    requires !Stamped(t, verb)
    ensures MaskIs(t, built, owed, accessors, verb, k, (0, 0)) && PairsAre(t, built, owed, accessors, verb, k, [])
  {
    hide Field, Stamped, Barriered, IsDebt;
    EmptyMask(t, built, owed, accessors, verb);
  }

  lemma MaskStep(t: Tables, built: Built, owed: string -> bool, accessors: seq<string>, verb: string, k: nat,
                 words: Words, pairs: seq<Pair>)
    requires k < 128 && Names(accessors) && AdmittedAt(t, built, owed, accessors, verb, k)
    requires MaskIs(t, built, owed, accessors, verb, k, words) && PairsAre(t, built, owed, accessors, verb, k, pairs)
    ensures MaskIs(t, built, owed, accessors, verb, k + 1, WithBit(words, k))
    ensures PairsAre(t, built, owed, accessors, verb, k + 1, pairs + [(accessors[k], verb)])
  {
    hide Field, Admitted, HasBit, WithBit, PairsAre;
    WithBitSets(words, k, k);
    forall i: nat
      ensures HasBit(WithBit(words, k), i) <==> i < k + 1 && AdmittedAt(t, built, owed, accessors, verb, i)
    {
      WithBitSets(words, k, i);
    }
    PairStep(t, built, owed, accessors, verb, k, pairs);
  }

  lemma PairStep(t: Tables, built: Built, owed: string -> bool, accessors: seq<string>, verb: string, k: nat,
                 pairs: seq<Pair>)
    requires Names(accessors) && AdmittedAt(t, built, owed, accessors, verb, k)
    requires PairsAre(t, built, owed, accessors, verb, k, pairs)
    ensures PairsAre(t, built, owed, accessors, verb, k + 1, pairs + [(accessors[k], verb)])
  {
    hide Admitted;
    var one := (accessors[k], verb);
    assert multiset(pairs + [one]) == multiset(pairs) + multiset{one};
    forall p: Pair
      ensures multiset(pairs + [one])[p] ==
        if p.1 == verb && PairAdmitted(t, built, owed, accessors, p, k + 1) then 1 else 0
    {
      if p == one {
        assert AdmittedAt(t, built, owed, accessors, p.1, k);
        assert !PairAdmitted(t, built, owed, accessors, p, k);
      }
    }
  }

  lemma MaskSkips(t: Tables, built: Built, owed: string -> bool, accessors: seq<string>, verb: string, k: nat,
                  words: Words, pairs: seq<Pair>)
    requires !AdmittedAt(t, built, owed, accessors, verb, k)
    requires MaskIs(t, built, owed, accessors, verb, k, words) && PairsAre(t, built, owed, accessors, verb, k, pairs)
    ensures MaskIs(t, built, owed, accessors, verb, k + 1, words)
    ensures PairsAre(t, built, owed, accessors, verb, k + 1, pairs)
  {
    hide Field, Admitted, HasBit, AdmittedAt;
    forall p: Pair | p.1 == verb
      ensures PairAdmitted(t, built, owed, accessors, p, k + 1) <==> PairAdmitted(t, built, owed, accessors, p, k)
    {
    }
  }

  /** The ops stamping a verb, in stamp-list order, and whether all of them wait. */
  method StampsOf(t: Tables, verb: string) returns (ops: seq<string>, barriered: bool)
    ensures ops != [] <==> Stamped(t, verb)
    ensures barriered <==> Barriered(t, verb)
  {
    ops, barriered := [], true;
    for i := 0 to |t.verbOps|
      invariant ops != [] <==> exists j :: 0 <= j < i && t.verbOps[j].1 == verb
      invariant barriered <==> forall j :: 0 <= j < i && t.verbOps[j].1 == verb ==> Waits(t, t.verbOps[j].0)
    {
      if t.verbOps[i].1 == verb {
        ops := ops + [t.verbOps[i].0];
        barriered := barriered && t.verbOps[i].0 in t.waits && t.waits[t.verbOps[i].0] != WAIT_NONE;
      }
    }
    barriered := ops != [] && barriered;
  }

  /** `(allowed[index // 64] >> (index % 64)) & 1`, on a two-word mask. */
  method MaskBit(allowed: Words, index: nat) returns (r: Result<bool, AdmitError>)
    ensures r.Ok? <==> index < 128
    ensures r.Ok? ==> (r.value <==> HasBit(allowed, index))
    ensures r.Err? ==> r.error == FieldIndexTooLarge(index)
  {
    if index >= 128 {
      return Err(FieldIndexTooLarge(index));
    }
    var word := if index < 64 then allowed.0 else allowed.1;
    return Ok(Mask(ShiftRight(word, index % 64), 1) == 1);
  }

  /** One stamped verb's mask and pairs. */
  method AdmitVerb(t: Tables, built: Built, owed: string -> bool, accessors: seq<string>, verb: string, barriered: bool)
    returns (r: Result<(Words, seq<Pair>), AdmitError>)
    requires Derivable(t, built, accessors) && Stamped(t, verb) && verb in t.verbClass
    requires barriered <==> Barriered(t, verb)
    ensures r.Ok? <==> !Overflows(built, accessors)
    ensures r.Ok? ==> MaskIs(t, built, owed, accessors, verb, |accessors|, r.value.0)
    ensures r.Ok? ==> PairsAre(t, built, owed, accessors, verb, |accessors|, r.value.1)
  {
    hide Field, Stamped, Barriered, MaskIs, PairsAre, HasBit, WithBit;
    var allowed := t.classMask[t.verbClass[verb]];
    var words: Words := (0, 0);
    var pairs: seq<Pair> := [];
    EmptyMask(t, built, owed, accessors, verb);
    for k := 0 to |accessors|
      invariant MaskIs(t, built, owed, accessors, verb, k, words) && PairsAre(t, built, owed, accessors, verb, k, pairs)
      invariant forall i: nat :: 128 <= i < k ==> !IsDebt(built, accessors[i])
    {
      var field := accessors[k];
      if built.ownership[field] != BARRIER_PULLED {
        MaskSkips(t, built, owed, accessors, verb, k, words, pairs);
      } else {
        var bit := MaskBit(allowed, k);
        if bit.Err? {
          assert IsDebt(built, accessors[k]);
          return Err(bit.error);
        }
        if !bit.value || (!barriered && owed(built.phase[field])) {
          MaskSkips(t, built, owed, accessors, verb, k, words, pairs);
        } else {
          MaskStep(t, built, owed, accessors, verb, k, words, pairs);
          words := WithBit(words, k);
          pairs := pairs + [(field, verb)];
        }
      }
    }
    return Ok((words, pairs));
  }

  /** When the derivation has an answer: every stamped verb it is asked about has a class and, if there is
      one, no debt is numbered beyond the two words. */
  ghost predicate Derives(t: Tables, built: Built, accessors: seq<string>, verbs: seq<string>, k: nat)
    requires k <= |verbs|
  {
    forall v :: 0 <= v < k && Stamped(t, verbs[v]) ==> verbs[v] in t.verbClass && !Overflows(built, accessors)
  }

  ghost predicate Masks(t: Tables, built: Built, owed: string -> bool, accessors: seq<string>, verbs: seq<string>,
                        masks: seq<Words>)
    requires |masks| <= |verbs|
  {
    forall v :: 0 <= v < |masks| ==> MaskIs(t, built, owed, accessors, verbs[v], |accessors|, masks[v])
  }

  /** Every admitted pair, as often as its verb is asked about. */
  ghost predicate Pairs(t: Tables, built: Built, owed: string -> bool, accessors: seq<string>, verbs: seq<string>,
                        pairs: seq<Pair>)
  {
    forall p: Pair :: multiset(pairs)[p] ==
      if PairAdmitted(t, built, owed, accessors, p, |accessors|) then multiset(verbs)[p.1] else 0
  }

  lemma MorePairs(t: Tables, built: Built, owed: string -> bool, accessors: seq<string>, verbs: seq<string>, k: nat,
                  pairs: seq<Pair>, more: seq<Pair>)
    requires k < |verbs| && Pairs(t, built, owed, accessors, verbs[..k], pairs)
    requires PairsAre(t, built, owed, accessors, verbs[k], |accessors|, more)
    ensures Pairs(t, built, owed, accessors, verbs[..k + 1], pairs + more)
  {
    hide PairAdmitted;
    assert verbs[..k + 1] == verbs[..k] + [verbs[k]];
    assert multiset(pairs + more) == multiset(pairs) + multiset(more);
  }

  // ---- the sorted list ----------------------------------------------------------------------

  function Spell(p: Pair): string {
    p.0 + "@" + p.1
  }

  /** A spelling tells its pair: the first `@` ends the field's name. */
  lemma SpellIsInjective(p: Pair, q: Pair)
    requires '@' !in p.0 && '@' !in q.0 && Spell(p) == Spell(q)
    ensures p == q
  {
    assert Spell(p)[|p.0|] == '@' && Spell(q)[|q.0|] == '@';
    assert |p.0| == |q.0|;
    assert p.0 == Spell(p)[..|p.0|] && q.0 == Spell(q)[..|q.0|];
    assert p.1 == Spell(p)[|p.0| + 1..] && q.1 == Spell(q)[|q.0| + 1..];
  }

  function SpellAll(pairs: seq<Pair>): (names: seq<string>)
    ensures |names| == |pairs|
  {
    if pairs == [] then [] else SpellAll(pairs[..|pairs| - 1]) + [Spell(pairs[|pairs| - 1])]
  }

  lemma {:induction false} SpelledAsOften(pairs: seq<Pair>, p: Pair)
    requires '@' !in p.0 && forall q :: q in pairs ==> '@' !in q.0
    ensures multiset(SpellAll(pairs))[Spell(p)] == multiset(pairs)[p]
  {
    hide Spell;
    if pairs != [] {
      var before, last := pairs[..|pairs| - 1], pairs[|pairs| - 1];
      SpelledAsOften(before, p);
      assert pairs == before + [last] && last in pairs;
      if Spell(last) == Spell(p) {
        SpellIsInjective(last, p);
      }
    }
  }

  lemma {:induction false} SpelledFrom(pairs: seq<Pair>, name: string)
    requires name in SpellAll(pairs)
    ensures exists p :: p in pairs && Spell(p) == name
  {
    hide Spell;
    var before, last := pairs[..|pairs| - 1], pairs[|pairs| - 1];
    if Spell(last) == name {
      assert last in pairs;
    } else {
      SpelledFrom(before, name);
      var p :| p in before && Spell(p) == name;
      assert p in pairs;
    }
  }

  /** The order of strings: by the first character that differs, a prefix first. */
  predicate AtMost(a: string, b: string) {
    a == [] || (b != [] && (a[0] < b[0] || (a[0] == b[0] && AtMost(a[1..], b[1..]))))
  }

  /** The order compares code points: a prefix comes first, and otherwise the first characters that differ
      decide. */
  lemma {:induction false} AtMostMeans(a: string, b: string)
    ensures AtMost(a, b) <==>
      a <= b || exists i :: 0 <= i < |a| && i < |b| && a[..i] == b[..i] && a[i] < b[i]
  {
    if a != [] && b != [] {
      if a[0] == b[0] {
        var x, y := a[1..], b[1..];
        AtMostMeans(x, y);
        assert a <= b <==> x <= y;
        if i :| 0 <= i < |x| && i < |y| && x[..i] == y[..i] && x[i] < y[i] {
          assert a[..i + 1] == [a[0]] + x[..i] && b[..i + 1] == [b[0]] + y[..i] && a[i + 1] < b[i + 1];
        }
        if i :| 0 <= i < |a| && i < |b| && a[..i] == b[..i] && a[i] < b[i] {
          assert x[..i - 1] == a[..i][1..] && y[..i - 1] == b[..i][1..] && x[i - 1] < y[i - 1];
        }
      } else {
        assert a[..0] == b[..0];
        if i :| 0 <= i < |a| && i < |b| && a[..i] == b[..i] && a[i] < b[i] {
          SameStart(a, b, i);
        }
      }
    }
  }

  lemma SameStart(a: string, b: string, i: nat)
    requires i < |a| && i < |b| && a[..i] == b[..i]
    ensures i > 0 ==> a[0] == b[0]
  {
    assert i > 0 ==> a[..i][0] == b[..i][0];
  }

  lemma {:induction false} AtMostIsTotal(a: string, b: string)
    ensures AtMost(a, b) || AtMost(b, a)
  {
    if a != [] && b != [] && a[0] == b[0] {
      AtMostIsTotal(a[1..], b[1..]);
    }
  }

  lemma {:induction false} AtMostChains(a: string, b: string, c: string)
    requires AtMost(a, b) && AtMost(b, c)
    ensures AtMost(a, c)
  {
    if a != [] && a[0] == b[0] == c[0] {
      AtMostChains(a[1..], b[1..], c[1..]);
    }
  }

  predicate Sorted(names: seq<string>) {
    forall i, j :: 0 <= i < j < |names| ==> AtMost(names[i], names[j])
  }

  /** `sorted(names)`. */
  method SortNames(names: seq<string>) returns (sorted: seq<string>)
    ensures multiset(sorted) == multiset(names) && Sorted(sorted)
  {
    sorted := [];
    for n := 0 to |names|
      invariant multiset(sorted) == multiset(names[..n]) && Sorted(sorted)
    {
      assert names[..n + 1] == names[..n] + [names[n]];
      sorted := InsertName(sorted, names[n]);
    }
    assert names[..|names|] == names;
  }

  method InsertName(names: seq<string>, name: string) returns (longer: seq<string>)
    requires Sorted(names)
    ensures multiset(longer) == multiset(names) + multiset{name} && Sorted(longer)
  {
    hide Sorted;
    var i := 0;
    while i < |names| && !AtMost(name, names[i])
      invariant i <= |names|
      invariant forall j :: 0 <= j < i ==> AtMost(names[j], name)
    {
      AtMostIsTotal(name, names[i]);
      i := i + 1;
    }
    SortedInsert(names, i, name);
    assert names == names[..i] + names[i..];
    longer := names[..i] + [name] + names[i..];
  }

  lemma SortedInsert(names: seq<string>, i: nat, name: string)
    requires Sorted(names) && i <= |names|
    requires forall j :: 0 <= j < i ==> AtMost(names[j], name)
    requires i < |names| ==> AtMost(name, names[i])
    ensures Sorted(names[..i] + [name] + names[i..])
  {
    hide AtMost;
    forall j | i <= j < |names| ensures AtMost(name, names[j]) {
      if i < j {
        AtMostChains(name, names[i], names[j]);
      }
    }
    var longer := names[..i] + [name] + names[i..];
    assert forall j :: 0 <= j < |longer| ==>
      longer[j] == if j < i then names[j] else if j == i then name else names[j - 1];
  }

  /** The list: sorted, every f@v of an admitted pair as often as v is asked about, and nothing else. */
  ghost predicate Listing(t: Tables, built: Built, owed: string -> bool, accessors: seq<string>, verbs: seq<string>,
                          names: seq<string>)
  {
    && Sorted(names)
    && (forall i: nat, verb: string {:trigger AdmittedAt(t, built, owed, accessors, verb, i)} :: i < |accessors| ==>
          multiset(names)[Spell((accessors[i], verb))] ==
          if AdmittedAt(t, built, owed, accessors, verb, i) then multiset(verbs)[verb] else 0)
    && (forall name :: name in names ==>
          exists i: nat, verb: string ::
            AdmittedAt(t, built, owed, accessors, verb, i) && verb in verbs && i < |accessors| &&
            name == Spell((accessors[i], verb)))
  }

  /** What the list says of a field and a verb that was asked about. */
  lemma ListedExactly(t: Tables, built: Built, owed: string -> bool, accessors: seq<string>, verbs: seq<string>,
                      names: seq<string>, i: nat, verb: string)
    requires Listing(t, built, owed, accessors, verbs, names) && i < |accessors| && verb in verbs
    ensures Spell((accessors[i], verb)) in names <==> Admitted(t, built, owed, accessors[i], i, verb)
  {
    hide Admitted, Spell, Sorted;
    assert AdmittedAt(t, built, owed, accessors, verb, i) <==> Admitted(t, built, owed, accessors[i], i, verb);
    assert multiset(verbs)[verb] > 0;
    var name := Spell((accessors[i], verb));
    assert name in names <==> multiset(names)[name] > 0;
  }

  /** A field's pairs are its own: it has one number. */
  lemma PairOfField(t: Tables, built: Built, owed: string -> bool, accessors: seq<string>, i: nat, verb: string)
    requires Names(accessors) && i < |accessors|
    ensures PairAdmitted(t, built, owed, accessors, (accessors[i], verb), |accessors|) <==>
            AdmittedAt(t, built, owed, accessors, verb, i)
  {
    hide Admitted;
  }

  lemma PairsAreNamed(t: Tables, built: Built, owed: string -> bool, accessors: seq<string>, verbs: seq<string>,
                      pairs: seq<Pair>, p: Pair)
    requires Names(accessors) && Pairs(t, built, owed, accessors, verbs, pairs) && p in pairs
    ensures '@' !in p.0 && p.1 in verbs
    ensures exists i: nat :: AdmittedAt(t, built, owed, accessors, p.1, i) && i < |accessors| && accessors[i] == p.0
  {
    hide Admitted;
    assert multiset(pairs)[p] > 0;
    assert multiset(verbs)[p.1] > 0;
  }

  method ListPairs(t: Tables, built: Built, owed: string -> bool, accessors: seq<string>, verbs: seq<string>,
                   pairs: seq<Pair>) returns (names: seq<string>)
    requires Names(accessors) && Pairs(t, built, owed, accessors, verbs, pairs)
    ensures Listing(t, built, owed, accessors, verbs, names)
  {
    hide PairAdmitted, AdmittedAt, Spell, Sorted, Names, Pairs;
    var spelled: seq<string> := [];
    for n := 0 to |pairs|
      invariant spelled == SpellAll(pairs[..n])
    {
      assert pairs[..n + 1][..n] == pairs[..n];
      spelled := spelled + [Spell(pairs[n])];
    }
    assert pairs[..|pairs|] == pairs;
    names := SortNames(spelled);
    SpelledListing(t, built, owed, accessors, verbs, pairs, names);
  }

  lemma SpelledListing(t: Tables, built: Built, owed: string -> bool, accessors: seq<string>, verbs: seq<string>,
                       pairs: seq<Pair>, names: seq<string>)
    requires Names(accessors) && Pairs(t, built, owed, accessors, verbs, pairs)
    requires Sorted(names) && multiset(names) == multiset(SpellAll(pairs))
    ensures Listing(t, built, owed, accessors, verbs, names)
  {
    hide PairAdmitted, AdmittedAt, Spell, Sorted, SpellAll;
    forall p | p in pairs ensures '@' !in p.0 {
      PairsAreNamed(t, built, owed, accessors, verbs, pairs, p);
    }
    forall i: nat, verb: string | i < |accessors|
      ensures multiset(names)[Spell((accessors[i], verb))] ==
              if AdmittedAt(t, built, owed, accessors, verb, i) then multiset(verbs)[verb] else 0
    {
      SpelledAsOften(pairs, (accessors[i], verb));
      PairOfField(t, built, owed, accessors, i, verb);
    }
    forall name | name in names
      ensures exists i: nat, verb: string ::
        AdmittedAt(t, built, owed, accessors, verb, i) && i < |accessors| && verb in verbs &&
        name == Spell((accessors[i], verb))
    {
      assert name in multiset(names);
      SpelledFrom(pairs, name);
      var p :| p in pairs && Spell(p) == name;
      PairsAreNamed(t, built, owed, accessors, verbs, pairs, p);
    }
  }

  /** THE DERIVATION: it answers exactly when it can, and then bit f of verb v's mask is set if and only if
      f@v is admitted if and only if f@v is in the sorted pair list. */
  method BuildAdmitted(t: Tables, built: Built, owed: string -> bool, accessors: seq<string>, verbs: seq<string>)
    returns (r: Result<(seq<Words>, seq<string>), AdmitError>)
    requires Derivable(t, built, accessors)
    ensures r.Ok? <==> Derives(t, built, accessors, verbs, |verbs|)
    ensures r.Ok? ==> |r.value.0| == |verbs| && Masks(t, built, owed, accessors, verbs, r.value.0)
    ensures r.Ok? ==> Listing(t, built, owed, accessors, verbs, r.value.1)
  {
    hide MaskIs, PairsAre, Stamped, Barriered, Overflows, Pairs, Derivable, Names, Listing;
    var masks: seq<Words> := [];
    var pairs: seq<Pair> := [];
    NoPairs(t, built, owed, accessors, verbs);
    DerivableNames(t, built, accessors);
    for k := 0 to |verbs|
      invariant |masks| == k && Masks(t, built, owed, accessors, verbs, masks)
      invariant Derives(t, built, accessors, verbs, k)
      invariant Pairs(t, built, owed, accessors, verbs[..k], pairs)
    {
      var verb := verbs[k];
      var ops, barriered := StampsOf(t, verb);
      if ops == [] {
        NothingUnstamped(t, built, owed, accessors, verb, |accessors|);
        MorePairs(t, built, owed, accessors, verbs, k, pairs, []);
        assert pairs + [] == pairs;
        masks := masks + [(0, 0)];
      } else {
        if verb !in t.verbClass {
          return Err(NoVerbClass(verb));
        }
        var one := AdmitVerb(t, built, owed, accessors, verb, barriered);
        if one.Err? {
          return Err(one.error);
        }
        MorePairs(t, built, owed, accessors, verbs, k, pairs, one.value.1);
        masks := masks + [one.value.0];
        pairs := pairs + one.value.1;
      }
    }
    assert verbs[..|verbs|] == verbs;
    var names := ListPairs(t, built, owed, accessors, verbs, pairs);
    return Ok((masks, names));
  }

  lemma DerivableNames(t: Tables, built: Built, accessors: seq<string>)
    requires Derivable(t, built, accessors)
    ensures Names(accessors)
  {
  }

  lemma NoPairs(t: Tables, built: Built, owed: string -> bool, accessors: seq<string>, verbs: seq<string>)
    ensures Pairs(t, built, owed, accessors, verbs[..0], [])
  {
  }

  /** The consequence read at run time: two tables that differ only in that some op lost its wait give
      masks of which the second is contained in the first. */
  lemma LosingAWaitShrinksTheMask(t: Tables, fewer: map<string, string>, built: Built, owed: string -> bool,
                                  accessors: seq<string>, verb: string, words: Words, after: Words)
    requires forall op :: Waits(t.(waits := fewer), op) ==> Waits(t, op)
    requires MaskIs(t, built, owed, accessors, verb, |accessors|, words)
    requires MaskIs(t.(waits := fewer), built, owed, accessors, verb, |accessors|, after)
    ensures forall i: nat :: HasBit(after, i) ==> HasBit(words, i)
  {
    hide HasBit, Admitted;
    forall i: nat | HasBit(after, i) ensures HasBit(words, i) {
      FewerWaitsAdmitLess(t, fewer, built, owed, accessors[i], i, verb);
    }
  }

  // ---- a verb nobody stamps ------------------------------------------------------------------

  /** What the derivation's own description admits: its first disjunct only for stamped verbs, its second
      for all. */
  predicate Described(t: Tables, built: Built, owed: string -> bool, field: string, index: nat, verb: string) {
    IsDebt(built, field) && MayRead(t, verb, index) &&
    (Barriered(t, verb) || !(field in built.phase && owed(built.phase[field])))
  }

  /** A debt inside the verb's class that this phase does not owe. */
  predicate Forgivable(t: Tables, built: Built, owed: string -> bool, field: string, index: nat, verb: string) {
    IsDebt(built, field) && MayRead(t, verb, index) && !(field in built.phase && owed(built.phase[field]))
  }

  /** Code and description agree on a verb if and only if it is stamped or its class holds no such debt. */
  lemma {:induction false} DescriptionAgreesExactly(t: Tables, built: Built, owed: string -> bool,
                                                    accessors: seq<string>, verb: string)
    ensures (forall i: nat :: i < |accessors| ==>
              (Admitted(t, built, owed, accessors[i], i, verb) <==> Described(t, built, owed, accessors[i], i, verb)))
            <==>
            Stamped(t, verb) ||
            forall i: nat :: i < |accessors| ==> !Forgivable(t, built, owed, accessors[i], i, verb)
  {
    hide HasBit;
  }

  const OTHER_STAMPED := Tables([("read_pixels", "ReadPixels")], map["read_pixels" := "kWaitReply"],
                                map["DrawArrays" := "kDraw", "ReadPixels" := "kDraw"], map["kDraw" := (1, 0)])
  const DEBT := Built(map["GetProgram" := BARRIER_PULLED], map["GetProgram" := "P8"],
                      map["GetProgram" := "indirect"], map[], [], map[])

  /** ReadPixels is stamped, DrawArrays is not: a debt in their class that this phase does not owe is
      described as admitted for both, and admitted for ReadPixels alone. */
  lemma UnstampedDebtIsNotAdmitted(owed: string -> bool)
    requires !owed("P8")
    ensures Described(OTHER_STAMPED, DEBT, owed, "GetProgram", 0, "DrawArrays")
    ensures !Admitted(OTHER_STAMPED, DEBT, owed, "GetProgram", 0, "DrawArrays")
    ensures Admitted(OTHER_STAMPED, DEBT, owed, "GetProgram", 0, "ReadPixels")
  {
    assert Field(1, 0, 1) == Mask(1, 1) == 2 * Mask(0, 0) + 1;
    assert OTHER_STAMPED.verbOps[0].1 == "ReadPixels";
    assert "ReadPixels" != "DrawArrays" by { assert "ReadPixels"[0] == 'R' && "DrawArrays"[0] == 'D'; }
  }
}
