/** The include graph the text mode of scripts/check_include_closure.py walks, and what its answers
  are measured against: reachability and genuine include paths. */
module IncludeModel {
  import opened Wrappers

  type Path = string

  /** A file as the walk reads it: unreadable, or its lines in order, each resolved to the file on
      disk it includes (None for a line that is no include or resolves to nothing). */
  datatype Contents = Unreadable | Text(lines: seq<Option<Path>>)

  type Tree = map<Path, Contents>

  function LinesOf(tree: Tree, path: Path): seq<Option<Path>> {
    if path in tree && tree[path].Text? then tree[path].lines else []
  }

  predicate Includes(tree: Tree, from: Path, to: Path) {
    Some(to) in LinesOf(tree, from)
  }

  /** An include only ever resolves to a file that exists. */
  predicate Resolves(tree: Tree, lines: seq<Option<Path>>) {
    forall i :: 0 <= i < |lines| && lines[i].Some? ==> lines[i].value in tree
  }

  predicate WellFormed(tree: Tree) {
    forall p :: p in tree ==> Resolves(tree, LinesOf(tree, p))
  }

  // ---- reachability -------------------------------------------------------------------------

  /** `chain` is an include path: the TU includes its first file, each file the next. */
  predicate IncludePath(tree: Tree, tu: seq<Option<Path>>, chain: seq<Path>) {
    && chain != []
    && Some(chain[0]) in tu
    && (forall i :: 0 < i < |chain| ==> Includes(tree, chain[i - 1], chain[i]))
  }

  ghost predicate Reachable(tree: Tree, tu: seq<Option<Path>>, path: Path) {
    exists chain: seq<Path> :: IncludePath(tree, tu, chain) && chain[|chain| - 1] == path
  }

  /** Everything in `seen` has all its includes in `seen`. */
  predicate ClosedUnder(tree: Tree, seen: set<Path>) {
    forall p :: p in seen ==> forall i :: 0 <= i < |LinesOf(tree, p)| && LinesOf(tree, p)[i].Some? ==>
      LinesOf(tree, p)[i].value in seen
  }

  /** A closed set that holds what the TU includes holds every file of every include path. */
  lemma {:induction false} ClosedHoldsPath(tree: Tree, tu: seq<Option<Path>>, seen: set<Path>, chain: seq<Path>)
    requires ClosedUnder(tree, seen) && IncludePath(tree, tu, chain)
    requires forall i :: 0 <= i < |tu| && tu[i].Some? ==> tu[i].value in seen
    ensures chain[|chain| - 1] in seen
  {
    var last := |chain| - 1;
    if last > 0 {
      var before := chain[..last];
      assert IncludePath(tree, tu, before) by {
        assert forall i :: 0 <= i < |before| ==> before[i] == chain[i];
      }
      ClosedHoldsPath(tree, tu, seen, before);
      assert Includes(tree, chain[last - 1], chain[last]);
    }
  }

  // ---- the walk's list ----------------------------------------------------------------------

  /** `relative` is the path inside the repository, None for a file outside it. */
  datatype Entry = Entry(depth: nat, relative: Option<string>, raw: Path)

  predicate Listed(entries: seq<Entry>, path: Path) {
    exists i :: 0 <= i < |entries| && entries[i].raw == path
  }

  predicate NoRepeats(entries: seq<Entry>) {
    forall i, j :: 0 <= i < j < |entries| ==> entries[i].raw != entries[j].raw
  }

  /** Entry j is the one whose text pulled entry i in: the nearest one before it that is one less
      deep, nothing shallower coming between, and it does include it. */
  predicate Parent(tree: Tree, entries: seq<Entry>, j: int, i: int) {
    && 0 <= j < i < |entries|
    && entries[j].depth + 1 == entries[i].depth
    && (forall k :: j < k < i ==> entries[k].depth >= entries[i].depth)
    && Includes(tree, entries[j].raw, entries[i].raw)
  }

  /** From entry `start` on: the lines account for the entries at `depth`, an earlier entry not before
      `start` for each deeper one, and there is none shallower. */
  ghost predicate Chained(tree: Tree, entries: seq<Entry>, start: nat, lines: seq<Option<Path>>, depth: nat) {
    forall i :: start <= i < |entries| ==>
      && entries[i].depth >= depth
      && (entries[i].depth == depth ==> Some(entries[i].raw) in lines)
      && (entries[i].depth > depth ==> exists j :: start <= j && Parent(tree, entries, j, i))
  }

  /** Every listed file is reachable. */
  lemma {:induction false} ChainedIsReachable(tree: Tree, entries: seq<Entry>, tu: seq<Option<Path>>, i: nat)
    returns (chain: seq<Path>)
    requires Chained(tree, entries, 0, tu, 1) && i < |entries|
    ensures chain != [] && IncludePath(tree, tu, chain)
    ensures |chain| == entries[i].depth && chain[|chain| - 1] == entries[i].raw
    decreases i
  {
    hide Chained, Parent, Includes, IncludePath;
    var parent := ChainedParent(tree, entries, tu, i);
    if parent.None? {
      chain := [entries[i].raw];
      PathStarts(tree, tu, entries[i].raw);
    } else {
      var before := ChainedIsReachable(tree, entries, tu, parent.value);
      chain := before + [entries[i].raw];
      PathExtends(tree, tu, before, entries[i].raw);
    }
  }

  lemma ChainedParent(tree: Tree, entries: seq<Entry>, tu: seq<Option<Path>>, i: nat) returns (parent: Option<nat>)
    requires Chained(tree, entries, 0, tu, 1) && i < |entries|
    ensures parent.None? ==> entries[i].depth == 1 && Some(entries[i].raw) in tu
    ensures parent.Some? ==> parent.value < i && entries[parent.value].depth + 1 == entries[i].depth &&
                             Includes(tree, entries[parent.value].raw, entries[i].raw)
  {
    hide Includes;
    if entries[i].depth == 1 {
      parent := None;
    } else {
      var j :| 0 <= j && Parent(tree, entries, j, i);
      parent := Some(j);
    }
  }

  lemma PathStarts(tree: Tree, tu: seq<Option<Path>>, path: Path)
    requires Some(path) in tu
    ensures IncludePath(tree, tu, [path])
  {
  }

  lemma PathExtends(tree: Tree, tu: seq<Option<Path>>, chain: seq<Path>, path: Path)
    requires IncludePath(tree, tu, chain) && chain != [] && Includes(tree, chain[|chain| - 1], path)
    ensures IncludePath(tree, tu, chain + [path])
  {
    hide Includes;
  }

  // ---- what one descent achieves ------------------------------------------------------------

  datatype Listing = Listing(entries: seq<Entry>, seen: set<Path>)

  /** `seen` is exactly what is listed, each file once. */
  ghost predicate Sound(tree: Tree, l: Listing) {
    && l.seen <= tree.Keys
    && NoRepeats(l.entries)
    && (forall p :: p in l.seen <==> Listed(l.entries, p))
  }

  predicate AllSeen(lines: seq<Option<Path>>, seen: set<Path>) {
    forall i :: 0 <= i < |lines| && lines[i].Some? ==> lines[i].value in seen
  }

  /** From `l` to `later` the given lines have been walked at `depth`: nothing listed before is
      touched, what is new hangs together below the lines, and the lines' files and the includes of
      every new file are all seen. */
  ghost predicate Walked(tree: Tree, l: Listing, later: Listing, lines: seq<Option<Path>>, depth: nat) {
    && Sound(tree, later)
    && l.entries <= later.entries
    && l.seen <= later.seen
    && Chained(tree, later.entries, |l.entries|, lines, depth)
    && AllSeen(lines, later.seen)
    && (forall p :: p in later.seen && p !in l.seen ==> AllSeen(LinesOf(tree, p), later.seen))
  }

  lemma WalkedNothing(tree: Tree, l: Listing, depth: nat)
    requires Sound(tree, l)
    ensures Walked(tree, l, l, [], depth)
  {
  }

  /** A line that is no include, or whose file has been seen, adds nothing. */
  lemma WalkedSkip(tree: Tree, l: Listing, later: Listing, lines: seq<Option<Path>>, depth: nat, line: Option<Path>)
    requires Walked(tree, l, later, lines, depth)
    requires line.Some? ==> line.value in later.seen
    ensures Walked(tree, l, later, lines + [line], depth)
  {
    forall i | |l.entries| <= i < |later.entries| && later.entries[i].depth == depth
      ensures Some(later.entries[i].raw) in lines + [line]
    {
      assert Some(later.entries[i].raw) in lines;
    }
  }

  function Add(l: Listing, entry: Entry): Listing {
    Listing(l.entries + [entry], l.seen + {entry.raw})
  }

  lemma AddKeepsSound(tree: Tree, l: Listing, entry: Entry)
    requires Sound(tree, l) && entry.raw in tree && entry.raw !in l.seen
    ensures Sound(tree, Add(l, entry))
  {
    var later := Add(l, entry);
    assert later.entries[|l.entries|] == entry;
    forall p ensures p in later.seen <==> Listed(later.entries, p) {
      if p in l.seen {
        var i :| 0 <= i < |l.entries| && l.entries[i].raw == p;
        assert later.entries[i].raw == p;
      }
    }
    assert forall i :: 0 <= i < |l.entries| ==> l.entries[i].raw in l.seen;
  }

  /** A new file is listed, then its own lines are walked one level deeper. */
  lemma WalkedVisit(tree: Tree, l: Listing, mid: Listing, entry: Entry, later: Listing,
                    lines: seq<Option<Path>>, depth: nat)
    requires Walked(tree, l, mid, lines, depth)
    requires entry.depth == depth && entry.raw !in mid.seen
    requires Walked(tree, Add(mid, entry), later, LinesOf(tree, entry.raw), depth + 1)
    ensures Walked(tree, l, later, lines + [Some(entry.raw)], depth)
  {
    hide Chained, Sound, AllSeen, LinesOf;
    assert l.entries <= mid.entries && mid.entries + [entry] <= later.entries;
    ChainedVisit(tree, l, mid, entry, later, lines, depth);
    assert mid.seen <= later.seen && entry.raw in later.seen;
    AllSeenGrows(lines, mid.seen, later.seen, entry.raw);
    forall p | p in later.seen && p !in l.seen ensures AllSeen(LinesOf(tree, p), later.seen) {
      if p in mid.seen {
        AllSeenGrows(LinesOf(tree, p), mid.seen, later.seen, entry.raw);
      } else if p != entry.raw {
        assert p !in Add(mid, entry).seen;
      }
    }
  }

  lemma AllSeenGrows(lines: seq<Option<Path>>, seen: set<Path>, later: set<Path>, path: Path)
    requires AllSeen(lines, seen) && seen <= later && path in later
    ensures AllSeen(lines, later) && AllSeen(lines + [Some(path)], later)
  {
  }

  lemma ChainedVisit(tree: Tree, l: Listing, mid: Listing, entry: Entry, later: Listing,
                     lines: seq<Option<Path>>, depth: nat)
    requires l.entries <= mid.entries && mid.entries + [entry] <= later.entries && entry.depth == depth
    requires Chained(tree, mid.entries, |l.entries|, lines, depth)
    requires Chained(tree, later.entries, |mid.entries| + 1, LinesOf(tree, entry.raw), depth + 1)
    ensures Chained(tree, later.entries, |l.entries|, lines + [Some(entry.raw)], depth)
  {
    var m := |mid.entries|;
    assert later.entries[m] == entry;
    forall i | |l.entries| <= i < |later.entries|
      ensures later.entries[i].depth >= depth
      ensures later.entries[i].depth == depth ==> Some(later.entries[i].raw) in lines + [Some(entry.raw)]
      ensures later.entries[i].depth > depth ==> exists j :: |l.entries| <= j && Parent(tree, later.entries, j, i)
    {
      if i < m {
        assert later.entries[i] == mid.entries[i];
        if mid.entries[i].depth > depth {
          var j :| |l.entries| <= j && Parent(tree, mid.entries, j, i);
          ParentStays(tree, mid.entries, later.entries, j, i);
        } else {
          assert Some(mid.entries[i].raw) in lines;
        }
      } else if i == m {
      } else if later.entries[i].depth == depth + 1 {
        assert Parent(tree, later.entries, m, i);
      } else {
        var j :| m + 1 <= j && Parent(tree, later.entries, j, i);
      }
    }
  }

  lemma ParentStays(tree: Tree, entries: seq<Entry>, later: seq<Entry>, j: int, i: int)
    requires entries <= later && Parent(tree, entries, j, i)
    ensures Parent(tree, later, j, i)
  {
  }

  /** THE CLOSURE THEOREM: a walk of the TU from nothing lists exactly the files reachable from it. */
  lemma ClosureIsReachability(tree: Tree, tu: seq<Option<Path>>, l: Listing)
    requires Walked(tree, Listing([], {}), l, tu, 1)
    ensures NoRepeats(l.entries)
    ensures forall p :: Listed(l.entries, p) <==> Reachable(tree, tu, p)
  {
    forall p ensures Listed(l.entries, p) <==> Reachable(tree, tu, p) {
      if i :| 0 <= i < |l.entries| && l.entries[i].raw == p {
        var chain := ChainedIsReachable(tree, l.entries, tu, i);
      } else if Reachable(tree, tu, p) {
        var chain: seq<Path> :| IncludePath(tree, tu, chain) && chain[|chain| - 1] == p;
        ClosedHoldsPath(tree, tu, l.seen, chain);
      }
    }
  }
}
