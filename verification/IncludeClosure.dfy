/** scripts/check_include_closure.py's text mode: the walk that fills the list in place, the search
  for forbidden entries, and the include chain reported for one. */
module IncludeClosure {
  import opened Wrappers
  import opened IncludeModel

  class TextClosure {
    const tree: Tree
    const relativeOf: Path -> Option<string>
    var entries: seq<Entry>
    var seen: set<Path>

    constructor (tree: Tree, relativeOf: Path -> Option<string>)
      ensures this.tree == tree && this.relativeOf == relativeOf && State() == Listing([], {})
    {
      this.tree := tree;
      this.relativeOf := relativeOf;
      entries := [];
      seen := {};
    }

    function State(): Listing
      reads this
    {
      Listing(entries, seen)
    }

    /** Every entry carries its file's repository name. */
    predicate Named()
      reads this
    {
      forall i :: 0 <= i < |entries| ==> entries[i].relative == relativeOf(entries[i].raw)
    }

    /** The descent ends because every nested call has one more file seen. */
    method Walk(lines: seq<Option<Path>>, depth: nat)
      requires WellFormed(tree) && Resolves(tree, lines) && Sound(tree, State()) && Named()
      modifies this
      ensures Walked(tree, old(State()), State(), lines, depth) && Named()
      decreases tree.Keys - seen
    {
      hide Walked, Sound;
      WalkedNothing(tree, State(), depth);
      for n := 0 to |lines|
        invariant Walked(tree, old(State()), State(), lines[..n], depth) && Named()
      {
        assert lines[..n + 1] == lines[..n] + [lines[n]];
        WalkedMeans(tree, old(State()), State(), lines[..n], depth);
        if lines[n].None? || lines[n].value in seen {
          WalkedSkip(tree, old(State()), State(), lines[..n], depth, lines[n]);
          continue;
        }
        var path := lines[n].value;
        ghost var mid := State();
        seen := seen + {path};
        entries := entries + [Entry(depth, relativeOf(path), path)];
        AddKeepsSound(tree, mid, Entry(depth, relativeOf(path), path));
        if tree[path].Unreadable? {
          WalkedNothing(tree, State(), depth + 1);
        } else {
          Walk(tree[path].lines, depth + 1);
        }
        WalkedVisit(tree, old(State()), mid, Entry(depth, relativeOf(path), path), State(), lines[..n], depth);
      }
      assert lines[..|lines|] == lines;
    }

    static lemma WalkedMeans(tree: Tree, l: Listing, later: Listing, lines: seq<Option<Path>>, depth: nat)
      requires Walked(tree, l, later, lines, depth)
      ensures Sound(tree, later) && l.seen <= later.seen
    {
    }
  }

  /** The files the TU pulls in: exactly the reachable ones, each listed once, and so that every entry
      hangs below the one that included it. */
  method TextClosureOf(tree: Tree, relativeOf: Path -> Option<string>, tu: seq<Option<Path>>)
    returns (entries: seq<Entry>)
    requires WellFormed(tree) && Resolves(tree, tu)
    ensures NoRepeats(entries)
    ensures forall p :: Listed(entries, p) <==> Reachable(tree, tu, p)
    ensures Chained(tree, entries, 0, tu, 1)
    ensures forall i :: 0 <= i < |entries| ==> entries[i].relative == relativeOf(entries[i].raw)
  {
    var closure := new TextClosure(tree, relativeOf);
    closure.Walk(tu, 1);
    ClosureIsReachability(tree, tu, closure.State());
    return closure.entries;
  }

  // ---- forbidden entries --------------------------------------------------------------------

  datatype Violation = Violation(index: nat, depth: nat, path: string, rule: string)

  /** The first forbidden prefix of a path. */
  function FirstHit(forbidden: seq<string>, path: string): (hit: Option<string>)
    ensures hit.Some? ==> exists i :: 0 <= i < |forbidden| && FirstAt(forbidden, path, i) && hit.value == forbidden[i]
    ensures hit.None? ==> forall i :: 0 <= i < |forbidden| ==> !(forbidden[i] <= path)
  {
    if forbidden == [] then None
    else if forbidden[0] <= path then
      assert FirstAt(forbidden, path, 0);
      Some(forbidden[0])
    else
      FirstLater(forbidden, path);
      FirstHit(forbidden[1..], path)
  }

  /** Prefix i is one of the path, and none before it is. */
  predicate FirstAt(forbidden: seq<string>, path: string, i: int) {
    0 <= i < |forbidden| && forbidden[i] <= path && forall j :: 0 <= j < i ==> !(forbidden[j] <= path)
  }

  lemma FirstLater(forbidden: seq<string>, path: string)
    requires forbidden != [] && !(forbidden[0] <= path)
    ensures forall i :: FirstAt(forbidden[1..], path, i) ==> FirstAt(forbidden, path, i + 1)
  {
    forall i | FirstAt(forbidden[1..], path, i) ensures FirstAt(forbidden, path, i + 1) {
      forall j | 0 <= j < i + 1 ensures !(forbidden[j] <= path) {
        assert j > 0 ==> forbidden[j] == forbidden[1..][j - 1];
      }
    }
  }

  predicate Allowed(allow: seq<string>, path: string) {
    exists i :: 0 <= i < |allow| && allow[i] <= path
  }

  predicate Violates(forbidden: seq<string>, allow: seq<string>, relative: Option<string>) {
    relative.Some? && FirstHit(forbidden, relative.value).Some? && !Allowed(allow, relative.value)
  }

  /** A repository file breaks a rule: some forbidden prefix is its own, and no allowed one. */
  lemma ViolatesMeans(forbidden: seq<string>, allow: seq<string>, relative: Option<string>)
    ensures Violates(forbidden, allow, relative) <==>
      && relative.Some?
      && (exists i :: 0 <= i < |forbidden| && forbidden[i] <= relative.value)
      && (forall i :: 0 <= i < |allow| ==> !(allow[i] <= relative.value))
  {
  }

  predicate Describes(v: Violation, entries: seq<Entry>, forbidden: seq<string>) {
    && v.index < |entries|
    && v.depth == entries[v.index].depth
    && entries[v.index].relative == Some(v.path)
    && FirstHit(forbidden, v.path) == Some(v.rule)
  }

  /** One report for each offending entry, in the order of the list, with the first rule it breaks. */
  method FindViolations(entries: seq<Entry>, forbidden: seq<string>, allow: seq<string>)
    returns (violations: seq<Violation>)
    ensures forall v :: v in violations ==>
      && v.index < |entries| && v.depth == entries[v.index].depth && entries[v.index].relative == Some(v.path)
      && (exists i :: 0 <= i < |forbidden| && v.rule == forbidden[i] && forbidden[i] <= v.path &&
                      forall j :: 0 <= j < i ==> !(forbidden[j] <= v.path))
      && (forall i :: 0 <= i < |allow| ==> !(allow[i] <= v.path))
    ensures forall k |
      && 0 <= k < |entries| && entries[k].relative.Some?
      && (exists i :: 0 <= i < |forbidden| && forbidden[i] <= entries[k].relative.value)
      && (forall i :: 0 <= i < |allow| ==> !(allow[i] <= entries[k].relative.value)) ::
        exists v :: v in violations && v.index == k
    ensures forall a, b :: 0 <= a < b < |violations| ==> violations[a].index < violations[b].index
  {
    violations := [];
    for index := 0 to |entries|
      invariant forall v :: v in violations ==> v.index < index && Describes(v, entries, forbidden) &&
                                                Violates(forbidden, allow, entries[v.index].relative)
      invariant forall i :: 0 <= i < index && Violates(forbidden, allow, entries[i].relative) ==>
        exists v :: v in violations && v.index == i
      invariant forall a, b :: 0 <= a < b < |violations| ==> violations[a].index < violations[b].index
    {
      var relative := entries[index].relative;
      if relative.None? {
        continue;
      }
      var hit := FirstHit(forbidden, relative.value);
      if hit.None? || Allowed(allow, relative.value) {
        continue;
      }
      ghost var before := violations;
      var v := Violation(index, entries[index].depth, relative.value, hit.value);
      violations := violations + [v];
      assert forall w :: w in before ==> w in violations;
      assert v in violations;
    }
    hide Violates, FirstHit, Allowed;
    forall k | 0 <= k < |entries| {
      ViolatesMeans(forbidden, allow, entries[k].relative);
    }
    forall v | v in violations
      ensures exists i :: 0 <= i < |forbidden| && v.rule == forbidden[i] && forbidden[i] <= v.path &&
                          forall j :: 0 <= j < i ==> !(forbidden[j] <= v.path)
    {
      assert FirstHit(forbidden, v.path) == Some(v.rule);
    }
  }

  /** THE GATE: the text mode reports nothing if and only if no file reachable from the TU, of those in
      the repository, has a forbidden prefix it is not excused from. */
  method TextViolations(tree: Tree, relativeOf: Path -> Option<string>, tu: seq<Option<Path>>,
                        forbidden: seq<string>, allow: seq<string>)
    returns (entries: seq<Entry>, violations: seq<Violation>)
    requires WellFormed(tree) && Resolves(tree, tu)
    ensures violations == [] <==>
      forall p |
        && Reachable(tree, tu, p) && relativeOf(p).Some?
        && (exists i :: 0 <= i < |forbidden| && forbidden[i] <= relativeOf(p).value) ::
          exists i :: 0 <= i < |allow| && allow[i] <= relativeOf(p).value
    ensures Chained(tree, entries, 0, tu, 1)
    ensures forall v :: v in violations ==>
      && v.index < |entries| && v.depth == entries[v.index].depth && entries[v.index].relative == Some(v.path)
      && (exists i :: 0 <= i < |forbidden| && v.rule == forbidden[i] && forbidden[i] <= v.path &&
                      forall j :: 0 <= j < i ==> !(forbidden[j] <= v.path))
  {
    entries := TextClosureOf(tree, relativeOf, tu);
    violations := FindViolations(entries, forbidden, allow);
    if violations == [] {
      forall p | Reachable(tree, tu, p) && relativeOf(p).Some? &&
                 (exists i :: 0 <= i < |forbidden| && forbidden[i] <= relativeOf(p).value)
        ensures exists i :: 0 <= i < |allow| && allow[i] <= relativeOf(p).value
      {
        var k :| 0 <= k < |entries| && entries[k].raw == p;
        assert entries[k].relative == relativeOf(p);
      }
    } else {
      var v := violations[0];
      assert v in violations;
      assert Listed(entries, entries[v.index].raw);
    }
  }

  // ---- the chain reported for one entry -----------------------------------------------------

  /** `relative or raw`. */
  function Display(entry: Entry): string {
    if entry.relative.Some? && entry.relative.value != "" then entry.relative.value else entry.raw
  }

  /** `chain` shows the include path through the entries `at`, which ends at `index`. */
  predicate ShowsPath(tree: Tree, tu: seq<Option<Path>>, entries: seq<Entry>, index: nat,
                      chain: seq<(nat, string)>, at: seq<nat>)
    requires index < |entries|
  {
    && |chain| == |at| == entries[index].depth > 0
    && (forall k :: 0 <= k < |at| ==> at[k] < |entries| && chain[k] == (k + 1, Display(entries[at[k]])))
    && at[|at| - 1] == index
    && Some(entries[at[0]].raw) in tu
    && (forall k :: 0 < k < |at| ==> Includes(tree, entries[at[k - 1]].raw, entries[at[k]].raw))
  }

  /** What the scan has collected, deepest entry first, with `wanted` levels to go. */
  predicate Collected(entries: seq<Entry>, index: nat, wanted: nat, chain: seq<(nat, string)>, at: seq<nat>)
    requires index < |entries|
  {
    && |chain| == |at|
    && wanted + |at| == entries[index].depth
    && (forall k :: 0 <= k < |at| ==> at[k] < |entries|)
    && (forall k :: 0 <= k < |at| ==> chain[k] == (entries[index].depth - k, Display(entries[at[k]])))
    && (at != [] ==> at[0] == index)
  }

  predicate Linked(tree: Tree, entries: seq<Entry>, at: seq<nat>) {
    && (forall k :: 0 <= k < |at| ==> at[k] < |entries|)
    && (forall k :: 0 < k < |at| ==> Includes(tree, entries[at[k]].raw, entries[at[k - 1]].raw))
  }

  /** The scan is still to meet the entry that pulled in the last one found. */
  ghost predicate AheadOf(tree: Tree, tu: seq<Option<Path>>, entries: seq<Entry>, wanted: nat, cursor: int, last: nat)
    requires last < |entries|
  {
    entries[last].depth == wanted + 1 && cursor < last &&
    if wanted == 0 then Some(entries[last].raw) in tu
    else exists j {:trigger Parent(tree, entries, j, last)} :: j <= cursor && Parent(tree, entries, j, last)
  }

  lemma ScanPasses(tree: Tree, tu: seq<Option<Path>>, entries: seq<Entry>, wanted: nat, cursor: nat, last: nat)
    requires last < |entries| && 0 < wanted && cursor < |entries|
    requires AheadOf(tree, tu, entries, wanted, cursor, last)
    ensures entries[cursor].depth == wanted ==> Parent(tree, entries, cursor, last)
    ensures entries[cursor].depth != wanted ==> AheadOf(tree, tu, entries, wanted, cursor - 1, last)
  {
    var j :| j <= cursor && Parent(tree, entries, j, last);
    if j < cursor {
      assert entries[cursor].depth >= entries[last].depth;
    }
  }

  lemma ScanFinds(tree: Tree, tu: seq<Option<Path>>, entries: seq<Entry>, wanted: nat, cursor: nat)
    requires Chained(tree, entries, 0, tu, 1) && cursor < |entries| && entries[cursor].depth == wanted > 0
    ensures AheadOf(tree, tu, entries, wanted - 1, cursor - 1, cursor)
  {
    if wanted > 1 {
      var j :| 0 <= j && Parent(tree, entries, j, cursor);
      assert j <= cursor - 1;
    }
  }

  lemma ScanEnds(tree: Tree, tu: seq<Option<Path>>, entries: seq<Entry>, index: nat, chain: seq<(nat, string)>,
                 at: seq<nat>)
    requires index < |entries| && Collected(entries, index, 0, chain, at) && Linked(tree, entries, at)
    requires at != [] && Some(entries[at[|at| - 1]].raw) in tu
    ensures ShowsPath(tree, tu, entries, index, Reversed(chain), Reversed(at))
  {
    var back := Reversed(at);
    forall k | 0 < k < |back| ensures Includes(tree, entries[back[k - 1]].raw, entries[back[k]].raw) {
      var m := |at| - k;
      assert back[k - 1] == at[m] && back[k] == at[m - 1];
      assert Includes(tree, entries[at[m]].raw, entries[at[m - 1]].raw);
    }
  }

  /** The backward scan for depth d, d-1, ..., 1. On a list the walk produced it finds, for every
      entry, the include path that pulled it in, one step for each level of depth. */
  method ChainFor(entries: seq<Entry>, index: nat, ghost tree: Tree, ghost tu: seq<Option<Path>>)
    returns (chain: seq<(nat, string)>)
    requires index < |entries|
    ensures Chained(tree, entries, 0, tu, 1) ==>
      exists at: seq<nat> :: ShowsPath(tree, tu, entries, index, chain, at) &&
        forall k :: 0 <= k < |at| ==>
          var e := entries[at[k]];
          chain[k] == (k + 1, if e.relative.Some? && e.relative.value != "" then e.relative.value else e.raw)
  {
    hide AheadOf, Includes, Collected, Linked, Parent, ShowsPath, Chained;
    chain := [];
    ghost var at: seq<nat> := [];
    var wanted := entries[index].depth;
    var cursor := index as int;
    ghost var walked := Chained(tree, entries, 0, tu, 1);
    ScanStarts(tree, tu, entries, index);
    while cursor >= 0 && wanted >= 1
      invariant -1 <= cursor <= index && 0 <= wanted && wanted + |at| == entries[index].depth
      invariant forall k :: 0 <= k < |at| ==> at[k] < |entries|
      invariant Collected(entries, index, wanted, chain, at)
      invariant at == [] ==> cursor == index
      invariant walked ==> Linked(tree, entries, at)
      invariant walked && at != [] ==> AheadOf(tree, tu, entries, wanted, cursor, at[|at| - 1])
      decreases cursor
    {
      if walked && at != [] {
        ScanPasses(tree, tu, entries, wanted, cursor, at[|at| - 1]);
      }
      if entries[cursor].depth == wanted {
        if walked {
          ScanFinds(tree, tu, entries, wanted, cursor);
          LinkNext(tree, entries, at, cursor);
        }
        CollectNext(entries, index, wanted, chain, at, cursor);
        chain := chain + [(entries[cursor].depth, Display(entries[cursor]))];
        at := at + [cursor];
        wanted := wanted - 1;
      }
      cursor := cursor - 1;
    }
    if walked {
      AllScanned(tree, tu, entries, wanted, cursor, at[|at| - 1]);
      ScanEnds(tree, tu, entries, index, chain, at);
    }
    chain := Reversed(chain);
    at := Reversed(at);
    if walked {
      PathShown(tree, tu, entries, index, chain, at);
    }
  }

  lemma PathShown(tree: Tree, tu: seq<Option<Path>>, entries: seq<Entry>, index: nat, chain: seq<(nat, string)>,
                  at: seq<nat>)
    requires index < |entries| && ShowsPath(tree, tu, entries, index, chain, at)
    ensures |chain| == |at| && forall k :: 0 <= k < |at| ==>
      && at[k] < |entries|
      && var e := entries[at[k]];
      chain[k] == (k + 1, if e.relative.Some? && e.relative.value != "" then e.relative.value else e.raw)
  {
  }

  lemma ScanStarts(tree: Tree, tu: seq<Option<Path>>, entries: seq<Entry>, index: nat)
    requires index < |entries|
    ensures Collected(entries, index, entries[index].depth, [], []) && Linked(tree, entries, [])
    ensures Chained(tree, entries, 0, tu, 1) ==> entries[index].depth > 0
  {
  }

  lemma CollectNext(entries: seq<Entry>, index: nat, wanted: nat, chain: seq<(nat, string)>, at: seq<nat>, cursor: nat)
    requires index < |entries| && Collected(entries, index, wanted, chain, at)
    requires cursor < |entries| && wanted > 0 && entries[cursor].depth == wanted && (at == [] ==> cursor == index)
    ensures Collected(entries, index, wanted - 1, chain + [(wanted, Display(entries[cursor]))], at + [cursor])
  {
  }

  lemma LinkNext(tree: Tree, entries: seq<Entry>, at: seq<nat>, cursor: nat)
    requires Linked(tree, entries, at) && cursor < |entries|
    requires at != [] ==> Parent(tree, entries, cursor, at[|at| - 1])
    ensures Linked(tree, entries, at + [cursor])
  {
  }

  lemma AllScanned(tree: Tree, tu: seq<Option<Path>>, entries: seq<Entry>, wanted: nat, cursor: int, last: nat)
    requires last < |entries| && AheadOf(tree, tu, entries, wanted, cursor, last)
    requires cursor < 0 || wanted == 0
    ensures wanted == 0 && Some(entries[last].raw) in tu
  {
  }
}
