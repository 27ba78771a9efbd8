/** What the moved-line matcher of scripts/check_text_hygiene.py reads out of a diff, measured against the
  diff's own structure: files, hunks, removed and added lines. */
module DiffPatches {
  import opened Wrappers
  import opened DiffModel

  // ---- a zero-context diff --------------------------------------------------------------------

  /** A line of a hunk; a note is a line like `\ No newline at end of file`. */
  datatype BodyLine = Minus(text: string) | Plus(text: string) | Note(text: string)

  datatype Hunk = Hunk(header: string, start: nat, body: seq<BodyLine>)

  /** One file: its git header, the lines before its `+++` line, what that line names (a file whose
      content stays has none), and its hunks. */
  datatype FilePatch = FilePatch(git: string, meta: seq<string>, target: Option<string>, hunks: seq<Hunk>)

  function TextOf(b: BodyLine): string {
    match b
    case Minus(text) => "-" + text
    case Plus(text) => "+" + text
    case Note(text) => "\\" + text
  }

  function BodyText(body: seq<BodyLine>): seq<string> {
    if body == [] then [] else BodyText(body[..|body| - 1]) + [TextOf(body[|body| - 1])]
  }

  function HunksText(hunks: seq<Hunk>): seq<string> {
    if hunks == [] then []
    else HunksText(hunks[..|hunks| - 1]) + ([hunks[|hunks| - 1].header] + BodyText(hunks[|hunks| - 1].body))
  }

  function TargetText(f: FilePatch): seq<string> {
    if f.target.Some? then ["+++ " + f.target.value] else []
  }

  function FileText(f: FilePatch): seq<string> {
    ["diff --git " + f.git] + f.meta + TargetText(f) + HunksText(f.hunks)
  }

  function DiffText(files: seq<FilePatch>): seq<string> {
    if files == [] then [] else DiffText(files[..|files| - 1]) + FileText(files[|files| - 1])
  }

  /** A line between a file's git header and its `+++` line. */
  predicate IsMeta(line: string) {
    !("diff --git " <= line) && !("+++ " <= line) && !("@@" <= line)
  }

  predicate HunkReads(x: Syntax, h: Hunk) {
    "@@" <= h.header && x.hunkStart(h.header) == Some(h.start)
  }

  predicate FileReads(x: Syntax, f: FilePatch) {
    (forall i :: 0 <= i < |f.meta| ==> IsMeta(f.meta[i])) &&
    (forall i :: 0 <= i < |f.hunks| ==> HunkReads(x, f.hunks[i]))
  }

  predicate Reads(x: Syntax, files: seq<FilePatch>) {
    forall i :: 0 <= i < |files| ==> FileReads(x, files[i])
  }

  // ---- what it removes and adds ---------------------------------------------------------------

  function MinusTexts(x: Syntax, body: seq<BodyLine>): seq<string> {
    if body == [] then []
    else
      var last := body[|body| - 1];
      MinusTexts(x, body[..|body| - 1]) + if last.Minus? then [x.strip(last.text)] else []
  }

  function PlusTexts(x: Syntax, body: seq<BodyLine>): seq<string> {
    if body == [] then []
    else
      var last := body[|body| - 1];
      PlusTexts(x, body[..|body| - 1]) + if last.Plus? then [x.strip(last.text)] else []
  }

  /** The added texts, numbered from `start` on. */
  function Numbered(start: nat, texts: seq<string>): (lines: seq<Line>)
    ensures |lines| == |texts|
  {
    seq(|texts|, i requires 0 <= i < |texts| => Line(start + i, texts[i]))
  }

  function HunksAdd(x: Syntax, hunks: seq<Hunk>): seq<Line> {
    if hunks == [] then []
    else
      var last := hunks[|hunks| - 1];
      HunksAdd(x, hunks[..|hunks| - 1]) + Numbered(last.start, PlusTexts(x, last.body))
  }

  function HunksRemove(x: Syntax, hunks: seq<Hunk>): multiset<string> {
    if hunks == [] then multiset{}
    else
      HunksRemove(x, hunks[..|hunks| - 1]) + multiset(MinusTexts(x, hunks[|hunks| - 1].body))
  }

  /** The file on the new side, if there is one. */
  function NewFile(f: FilePatch): Option<string> {
    if f.target.Some? && "b/" < f.target.value then Some(f.target.value[2..]) else None
  }

  /** The lines the diff adds to a file, in the order of its hunks. */
  function AddedTo(x: Syntax, files: seq<FilePatch>, file: string): seq<Line> {
    if files == [] then []
    else
      var last := files[|files| - 1];
      AddedTo(x, files[..|files| - 1], file) + if NewFile(last) == Some(file) then HunksAdd(x, last.hunks) else []
  }

  function RemovedBy(x: Syntax, files: seq<FilePatch>): multiset<string> {
    if files == [] then multiset{}
    else RemovedBy(x, files[..|files| - 1]) + HunksRemove(x, files[|files| - 1].hunks)
  }

  /** How often the diff adds a text, over all its files. */
  function TimesAdded(x: Syntax, files: seq<FilePatch>, text: string): nat {
    if files == [] then 0
    else
      var last := files[|files| - 1];
      TimesAdded(x, files[..|files| - 1], text) +
      if NewFile(last).Some? then Occurrences(HunksAdd(x, last.hunks), text) else 0
  }

  // ---- what the scan gains --------------------------------------------------------------------

  function RealPath(path: Option<string>): Option<string> {
    if path == Some("") then None else path
  }

  /** From `s` to `later`: `removed` more removals, and `lines` more lines of the file `path`, if it is one. */
  ghost predicate Gains(s: Scan, later: Scan, path: Option<string>, lines: seq<Line>, removed: multiset<string>) {
    && later.removed == s.removed + removed
    && (forall p :: LinesOf(later.added, p) == LinesOf(s.added, p) + (if path == Some(p) then lines else []))
    && (forall p :: p in later.added <==> p in s.added || (path == Some(p) && lines != []))
    && later.order == s.order + (if path.Some? && lines != [] && path.value !in s.added then [path.value] else [])
  }

  lemma GainsNothing(s: Scan, later: Scan, path: Option<string>)
    requires later.removed == s.removed && later.added == s.added && later.order == s.order
    ensures Gains(s, later, path, [], multiset{})
  {
  }

  lemma GainsJoin(s: Scan, mid: Scan, later: Scan, path: Option<string>, a: seq<Line>, b: seq<Line>,
                  r: multiset<string>, q: multiset<string>)
    requires Gains(s, mid, path, a, r) && Gains(mid, later, path, b, q)
    ensures Gains(s, later, path, a + b, r + q)
  {
    forall p ensures LinesOf(later.added, p) == LinesOf(s.added, p) + (if path == Some(p) then a + b else []) {
      assert LinesOf(s.added, p) + a + b == LinesOf(s.added, p) + (a + b);
    }
  }

  lemma {:induction false} ScanJoins(x: Syntax, s: Scan, a: seq<string>, b: seq<string>)
    ensures ScanFrom(x, s, a + b) == ScanFrom(x, ScanFrom(x, s, a), b)
  {
    hide Next;
    if b == [] {
      assert a + b == a;
    } else {
      assert (a + b)[..|a + b| - 1] == a + b[..|b| - 1];
      ScanJoins(x, s, a, b[..|b| - 1]);
    }
  }

  lemma ScanOne(x: Syntax, s: Scan, line: string)
    ensures ScanFrom(x, s, [line]) == Next(x, s, line)
  {
    hide Next;
    assert [line][..0] == [];
  }

  // ---- a hunk ---------------------------------------------------------------------------------

  /** What one line of a hunk adds and removes. */
  function AddsOne(x: Syntax, number: nat, b: BodyLine): seq<Line> {
    if b.Plus? then [Line(number, x.strip(b.text))] else []
  }

  function RemovesOne(x: Syntax, b: BodyLine): multiset<string> {
    if b.Minus? then multiset{x.strip(b.text)} else multiset{}
  }

  /** One line of a hunk, whatever its text looks like: a removed `-- a/x` is no file header. */
  lemma BodyLineRead(x: Syntax, s: Scan, b: BodyLine)
    requires s.inHunk
    ensures var later := Next(x, s, TextOf(b));
      && later.inHunk && later.path == s.path && later.newLine == s.newLine + (if b.Plus? then 1 else 0)
      && Gains(s, later, RealPath(s.path), AddsOne(x, s.newLine, b), RemovesOne(x, b))
  {
    var line := TextOf(b);
    assert line[0] == (match b case Minus(_) => '-' case Plus(_) => '+' case Note(_) => '\\');
    assert line[1..] == b.text;
    assert "diff --git "[0] == 'd' && "+++ "[0] == '+' && "@@"[0] == '@';
    assert b.Plus? ==> "+" <= line;
    assert b.Minus? ==> "-" <= line;
  }

  lemma BodyTextGrows(x: Syntax, s: Scan, body: seq<BodyLine>)
    requires body != []
    ensures ScanFrom(x, s, BodyText(body)) ==
      Next(x, ScanFrom(x, s, BodyText(body[..|body| - 1])), TextOf(body[|body| - 1]))
  {
    hide Next, TextOf;
    assert BodyText(body)[..|BodyText(body)| - 1] == BodyText(body[..|body| - 1]);
  }

  lemma NoBody(x: Syntax, start: nat)
    ensures BodyText([]) == [] && PlusTexts(x, []) == [] && MinusTexts(x, []) == [] && Numbered(start, []) == []
  {
  }

  lemma PlusGrows(x: Syntax, start: nat, body: seq<BodyLine>)
    requires body != []
    ensures var plus := PlusTexts(x, body[..|body| - 1]);
      var b := body[|body| - 1];
      && |PlusTexts(x, body)| == |plus| + (if b.Plus? then 1 else 0)
      && Numbered(start, PlusTexts(x, body)) == Numbered(start, plus) + AddsOne(x, start + |plus|, b)
  {
    hide Numbered;
    var plus := PlusTexts(x, body[..|body| - 1]);
    var b := body[|body| - 1];
    if b.Plus? {
      NumberedAppend(start, plus, x.strip(b.text));
    } else {
      assert plus + [] == plus && Numbered(start, plus) + [] == Numbered(start, plus);
    }
  }

  lemma NumberedAppend(start: nat, texts: seq<string>, text: string)
    ensures Numbered(start, texts + [text]) == Numbered(start, texts) + [Line(start + |texts|, text)]
  {
  }

  lemma MinusGrows(x: Syntax, body: seq<BodyLine>)
    requires body != []
    ensures multiset(MinusTexts(x, body)) ==
      multiset(MinusTexts(x, body[..|body| - 1])) + RemovesOne(x, body[|body| - 1])
  {
  }

  lemma {:induction false} BodyRead(x: Syntax, s: Scan, body: seq<BodyLine>)
    requires s.inHunk
    ensures var later := ScanFrom(x, s, BodyText(body));
      && later.inHunk && later.path == s.path && later.newLine == s.newLine + |PlusTexts(x, body)|
      && Gains(s, later, RealPath(s.path), Numbered(s.newLine, PlusTexts(x, body)), multiset(MinusTexts(x, body)))
  {
    hide Next, Gains, AddsOne, RemovesOne, PlusTexts, MinusTexts, Numbered, BodyText, TextOf;
    if body == [] {
      GainsNothing(s, s, RealPath(s.path));
      NoBody(x, s.newLine);
    } else {
      var last := |body| - 1;
      BodyRead(x, s, body[..last]);
      var mid := ScanFrom(x, s, BodyText(body[..last]));
      BodyLineRead(x, mid, body[last]);
      BodyTextGrows(x, s, body);
      PlusGrows(x, s.newLine, body);
      MinusGrows(x, body);
      GainsJoin(s, mid, ScanFrom(x, s, BodyText(body)), RealPath(s.path),
                Numbered(s.newLine, PlusTexts(x, body[..last])), AddsOne(x, mid.newLine, body[last]),
                multiset(MinusTexts(x, body[..last])), RemovesOne(x, body[last]));
    }
  }

  /** A HUNK: its removed texts are counted, and its added texts go to the file in force, numbered from the
      header's start on. */
  lemma HunkRead(x: Syntax, s: Scan, h: Hunk)
    requires HunkReads(x, h)
    ensures var later := ScanFrom(x, s, [h.header] + BodyText(h.body));
      && later.inHunk && later.path == s.path
      && Gains(s, later, RealPath(s.path), Numbered(h.start, PlusTexts(x, h.body)), multiset(MinusTexts(x, h.body)))
  {
    hide Gains, PlusTexts, MinusTexts, Numbered;
    assert "diff --git "[0] == 'd' && "+++ "[0] == '+' && h.header[0] == '@';
    var entered := Next(x, s, h.header);
    assert entered == s.(inHunk := true, newLine := h.start);
    ScanOne(x, s, h.header);
    ScanJoins(x, s, [h.header], BodyText(h.body));
    BodyRead(x, entered, h.body);
    GainsOpened(s, entered, ScanFrom(x, entered, BodyText(h.body)), RealPath(s.path),
                Numbered(h.start, PlusTexts(x, h.body)), multiset(MinusTexts(x, h.body)));
  }

  /** Only the three collections count. */
  lemma GainsOpened(s: Scan, entered: Scan, later: Scan, path: Option<string>, lines: seq<Line>,
                    removed: multiset<string>)
    requires entered.removed == s.removed && entered.added == s.added && entered.order == s.order
    requires Gains(entered, later, path, lines, removed)
    ensures Gains(s, later, path, lines, removed)
  {
  }

  lemma {:induction false} HunksRead(x: Syntax, s: Scan, hunks: seq<Hunk>)
    requires forall i :: 0 <= i < |hunks| ==> HunkReads(x, hunks[i])
    ensures var later := ScanFrom(x, s, HunksText(hunks));
      && later.path == s.path
      && Gains(s, later, RealPath(s.path), HunksAdd(x, hunks), HunksRemove(x, hunks))
  {
    hide Next, Gains, PlusTexts, MinusTexts, Numbered, HunkReads;
    if hunks == [] {
      GainsNothing(s, s, RealPath(s.path));
    } else {
      var last := |hunks| - 1;
      var h := hunks[last];
      HunksRead(x, s, hunks[..last]);
      var mid := ScanFrom(x, s, HunksText(hunks[..last]));
      HunkRead(x, mid, h);
      ScanJoins(x, s, HunksText(hunks[..last]), [h.header] + BodyText(h.body));
      GainsJoin(s, mid, ScanFrom(x, s, HunksText(hunks)), RealPath(s.path),
                HunksAdd(x, hunks[..last]), Numbered(h.start, PlusTexts(x, h.body)),
                HunksRemove(x, hunks[..last]), multiset(MinusTexts(x, h.body)));
    }
  }

  /** A HEADER THAT DOES NOT PARSE ends the hunk: until another one does, removed and added lines count for
      nothing, whatever they look like. */
  lemma UnreadHeader(x: Syntax, s: Scan, header: string, body: seq<BodyLine>)
    requires "@@" <= header && x.hunkStart(header) == None
    ensures var later := ScanFrom(x, s, [header] + BodyText(body));
      !later.inHunk && later.removed == s.removed && later.added == s.added && later.order == s.order
  {
    hide BodyText;
    assert "diff --git "[0] == 'd' && "+++ "[0] == '+' && header[0] == '@';
    ScanOne(x, s, header);
    ScanJoins(x, s, [header], BodyText(body));
    StrayBody(x, Next(x, s, header), body);
  }

  lemma {:induction false} StrayBody(x: Syntax, s: Scan, body: seq<BodyLine>)
    requires !s.inHunk
    ensures var later := ScanFrom(x, s, BodyText(body));
      !later.inHunk && later.removed == s.removed && later.added == s.added && later.order == s.order
  {
    hide TextOf;
    if body == [] {
      NoBody(x, 0);
    } else {
      StrayBody(x, s, body[..|body| - 1]);
      BodyTextGrows(x, s, body);
      StrayLine(x, body[|body| - 1]);
    }
  }

  lemma StrayLine(x: Syntax, b: BodyLine)
    ensures !("@@" <= TextOf(b)) && !("diff --git " <= TextOf(b))
  {
    assert "diff --git "[0] == 'd' && "@@"[0] == '@';
    assert TextOf(b)[0] in {'-', '+', '\\'};
  }

  // ---- a file ---------------------------------------------------------------------------------

  lemma {:induction false} MetaRead(x: Syntax, s: Scan, meta: seq<string>)
    requires !s.inHunk && forall i :: 0 <= i < |meta| ==> IsMeta(meta[i])
    ensures ScanFrom(x, s, meta) == s
  {
    if meta != [] {
      MetaRead(x, s, meta[..|meta| - 1]);
    }
  }

  lemma TargetRead(x: Syntax, s: Scan, f: FilePatch)
    requires !s.inHunk && s.path == None
    ensures var later := ScanFrom(x, s, TargetText(f));
      later == s.(path := later.path) && RealPath(later.path) == NewFile(f)
  {
    if f.target.Some? {
      var target := f.target.value;
      var line := "+++ " + target;
      ScanOne(x, s, line);
      assert line[..4] == "+++ " && line[4..] == target;
      assert "diff --git "[0] == 'd' && line[0] == '+';
      assert "+++ b/" <= line <==> "b/" <= target by {
        assert "+++ b/"[..4] == "+++ " && "+++ b/"[4..] == "b/";
        if "b/" <= target {
          assert line[..6] == "+++ " + target[..2];
        }
        if "+++ b/" <= line {
          assert target[..2] == line[4..6] == "+++ b/"[4..];
        }
      }
      assert "b/" <= target ==> line[6..] == target[2..];
    }
  }

  /** A FILE of the diff adds the lines of its hunks to the file it names, whatever was scanned before. */
  lemma FileRead(x: Syntax, s: Scan, f: FilePatch)
    requires FileReads(x, f)
    ensures Gains(s, ScanFrom(x, s, FileText(f)), NewFile(f), HunksAdd(x, f.hunks), HunksRemove(x, f.hunks))
  {
    hide Gains, HunksAdd, HunksRemove, HunksText, TargetText, NewFile, HunkReads, RealPath;
    var git := "diff --git " + f.git;
    assert "diff --git " <= git;
    var entered := s.(path := None, inHunk := false);
    ScanOne(x, s, git);
    MetaRead(x, entered, f.meta);
    TargetRead(x, entered, f);
    var named := ScanFrom(x, entered, TargetText(f));
    HunksRead(x, named, f.hunks);
    ScanJoins(x, s, [git], f.meta);
    ScanJoins(x, s, [git] + f.meta, TargetText(f));
    ScanJoins(x, s, [git] + f.meta + TargetText(f), HunksText(f.hunks));
    GainsOpened(s, named, ScanFrom(x, named, HunksText(f.hunks)), NewFile(f), HunksAdd(x, f.hunks),
                HunksRemove(x, f.hunks));
  }

  // ---- the whole diff -------------------------------------------------------------------------

  /** The files that gain a line, each once, in the order in which they first do. */
  function GainingFiles(x: Syntax, files: seq<FilePatch>): seq<string> {
    if files == [] then []
    else
      var before := GainingFiles(x, files[..|files| - 1]);
      var last := files[|files| - 1];
      if NewFile(last).Some? && HunksAdd(x, last.hunks) != [] && NewFile(last).value !in before
      then before + [NewFile(last).value] else before
  }

  /** The scan holds what the diff removes and what it adds to each file. */
  ghost predicate Holds(x: Syntax, files: seq<FilePatch>, s: Scan) {
    && s.removed == RemovedBy(x, files)
    && (forall p :: LinesOf(s.added, p) == AddedTo(x, files, p))
    && (forall p :: p in s.added <==> AddedTo(x, files, p) != [])
    && s.order == GainingFiles(x, files)
    && Tidy(s)
  }

  /** THE FIRST PASS: over any diff of this form it collects exactly the diff's removed texts, and for each
      file exactly the lines the diff adds to it. */
  lemma {:induction false} DiffRead(x: Syntax, files: seq<FilePatch>)
    requires Reads(x, files)
    ensures Holds(x, files, ScanOf(x, DiffText(files)))
  {
    hide Next, Holds, FileText, FileReads, HunksAdd, HunksRemove;
    if files == [] {
      NothingHeld(x);
    } else {
      var before := files[..|files| - 1];
      var f := files[|files| - 1];
      DiffRead(x, before);
      var s := ScanOf(x, DiffText(before));
      ScanJoins(x, START, DiffText(before), FileText(f));
      FileRead(x, s, f);
      HoldsMore(x, files, s, ScanOf(x, DiffText(files)));
    }
  }

  lemma NothingHeld(x: Syntax)
    ensures Holds(x, [], START)
  {
  }

  lemma HoldsMore(x: Syntax, files: seq<FilePatch>, s: Scan, later: Scan)
    requires files != [] && Holds(x, files[..|files| - 1], s)
    requires var f := files[|files| - 1]; Gains(s, later, NewFile(f), HunksAdd(x, f.hunks), HunksRemove(x, f.hunks))
    ensures Holds(x, files, later)
  {
    hide HunksAdd, HunksRemove, NewFile, LinesOf, Tidy, Gains, GainingFiles, AddedTo;
    var f := files[|files| - 1];
    TidyGains(s, later, NewFile(f), HunksAdd(x, f.hunks), HunksRemove(x, f.hunks));
    LinesMore(x, files, s, later);
    OrderMore(x, files, s, later);
    RemovedMore(s, later, NewFile(f), HunksAdd(x, f.hunks), HunksRemove(x, f.hunks));
  }

  lemma RemovedMore(s: Scan, later: Scan, path: Option<string>, lines: seq<Line>, removed: multiset<string>)
    requires Gains(s, later, path, lines, removed)
    ensures later.removed == s.removed + removed
  {
  }

  lemma LinesMore(x: Syntax, files: seq<FilePatch>, s: Scan, later: Scan)
    requires files != [] && Holds(x, files[..|files| - 1], s)
    requires var f := files[|files| - 1]; Gains(s, later, NewFile(f), HunksAdd(x, f.hunks), HunksRemove(x, f.hunks))
    ensures forall p :: LinesOf(later.added, p) == AddedTo(x, files, p)
    ensures forall p :: p in later.added <==> AddedTo(x, files, p) != []
  {
    hide HunksAdd, HunksRemove, NewFile, LinesOf, Tidy, GainingFiles, RemovedBy;
    forall p
      ensures LinesOf(later.added, p) == AddedTo(x, files, p)
      ensures p in later.added <==> AddedTo(x, files, p) != []
    {
      assert LinesOf(s.added, p) == AddedTo(x, files[..|files| - 1], p);
    }
  }

  lemma OrderMore(x: Syntax, files: seq<FilePatch>, s: Scan, later: Scan)
    requires files != [] && Holds(x, files[..|files| - 1], s)
    requires var f := files[|files| - 1]; Gains(s, later, NewFile(f), HunksAdd(x, f.hunks), HunksRemove(x, f.hunks))
    ensures later.order == GainingFiles(x, files)
  {
    hide HunksAdd, HunksRemove, NewFile, LinesOf, AddedTo, RemovedBy;
    OrderedKeys(s);
  }

  lemma OrderedKeys(s: Scan)
    requires Tidy(s)
    ensures forall p :: p in s.order <==> p in s.added
  {
  }

  lemma TidyGains(s: Scan, later: Scan, path: Option<string>, lines: seq<Line>, removed: multiset<string>)
    requires Tidy(s) && Gains(s, later, path, lines, removed)
    ensures Tidy(later)
  {
    hide LinesOf;
  }

  // ---- the surplus ----------------------------------------------------------------------------

  lemma {:induction false} OccurrencesJoin(a: seq<Line>, b: seq<Line>, text: string)
    ensures Occurrences(a + b, text) == Occurrences(a, text) + Occurrences(b, text)
  {
    if b == [] {
      assert a + b == a;
    } else {
      assert (a + b)[..|a + b| - 1] == a + b[..|b| - 1];
      OccurrencesJoin(a, b[..|b| - 1], text);
    }
  }

  /** The total over the first i files grows by what the file gained, if it is among them. */
  lemma {:induction false} CountGains(s: Scan, later: Scan, path: Option<string>, lines: seq<Line>,
                                      removed: multiset<string>, text: string, i: nat)
    requires Tidy(s) && Gains(s, later, path, lines, removed) && i <= |s.order|
    ensures i <= |later.order|
    ensures AddedCount(later, text, i) == AddedCount(s, text, i) +
      (if path.Some? && path.value in s.order[..i] then Occurrences(lines, text) else 0)
  {
    hide Occurrences, LinesOf, Tidy, Gains;
    OrderStays(s, later, path, lines, removed, i);
    if i > 0 {
      CountGains(s, later, path, lines, removed, text, i - 1);
      var p := s.order[i - 1];
      OccurrencesJoin(LinesOf(s.added, p), if path == Some(p) then lines else [], text);
      NoOccurrence(text);
    }
  }

  lemma OrderStays(s: Scan, later: Scan, path: Option<string>, lines: seq<Line>, removed: multiset<string>, i: nat)
    requires Tidy(s) && Gains(s, later, path, lines, removed) && i <= |s.order|
    ensures i <= |later.order|
    ensures i > 0 ==>
      var p := s.order[i - 1];
      && later.order[i - 1] == p && p !in s.order[..i - 1] && s.order[..i] == s.order[..i - 1] + [p]
      && LinesOf(later.added, p) == LinesOf(s.added, p) + (if path == Some(p) then lines else [])
  {
  }

  lemma NoOccurrence(text: string)
    ensures Occurrences([], text) == 0
  {
  }

  lemma TotalGains(s: Scan, later: Scan, path: Option<string>, lines: seq<Line>, removed: multiset<string>,
                   text: string)
    requires Tidy(s) && Gains(s, later, path, lines, removed)
    ensures AddedCount(later, text, |later.order|) ==
      AddedCount(s, text, |s.order|) + (if path.Some? then Occurrences(lines, text) else 0)
  {
    hide Occurrences, Tidy, Gains;
    CountGains(s, later, path, lines, removed, text, |s.order|);
    NoOccurrence(text);
    OrderedKeys(s);
    assert s.order[..|s.order|] == s.order;
    OrderGains(s, later, path, lines, removed);
  }

  /** A file that gains its first lines comes last and has just them. */
  lemma OrderGains(s: Scan, later: Scan, path: Option<string>, lines: seq<Line>, removed: multiset<string>)
    requires Gains(s, later, path, lines, removed)
    ensures later.order == s.order || (path.Some? && lines != [] && path.value !in s.added &&
      later.order == s.order + [path.value] && LinesOf(later.added, path.value) == lines)
    ensures path.Some? && lines != [] && path.value !in s.added ==> later.order == s.order + [path.value]
  {
    if path.Some? && path.value !in s.added {
      assert LinesOf(s.added, path.value) + lines == lines;
    }
  }

  lemma {:induction false} ScanAddsAll(x: Syntax, files: seq<FilePatch>, text: string)
    requires Reads(x, files)
    ensures var s := ScanOf(x, DiffText(files)); AddedCount(s, text, |s.order|) == TimesAdded(x, files, text)
  {
    hide Next, FileText, FileReads, HunksAdd, HunksRemove, Occurrences, NewFile;
    if files != [] {
      var before := files[..|files| - 1];
      var f := files[|files| - 1];
      ScanAddsAll(x, before, text);
      DiffRead(x, before);
      var s := ScanOf(x, DiffText(before));
      ScanJoins(x, START, DiffText(before), FileText(f));
      FileRead(x, s, f);
      TotalGains(s, ScanOf(x, DiffText(files)), NewFile(f), HunksAdd(x, f.hunks), HunksRemove(x, f.hunks), text);
    }
  }

  lemma RemovedIs(x: Syntax, files: seq<FilePatch>, s: Scan)
    requires Holds(x, files, s)
    ensures s.removed == RemovedBy(x, files)
  {
  }

  /** THE SURPLUS of the diff: over all files together a text is kept exactly as many times as the diff adds
      it more often than it removes it. */
  lemma {:induction false} DiffKeepsTheSurplus(x: Syntax, files: seq<FilePatch>, text: string)
    requires Reads(x, files)
    ensures var s := ScanOf(x, DiffText(files));
      KeptCount(s, text, |s.order|) == Max(0, TimesAdded(x, files, text) - RemovedBy(x, files)[text])
  {
    hide TimesAdded, RemovedBy, KeptCount, AddedCount, DiffText, ScanOf, Holds, Reads, LeftAfter;
    var s := ScanOf(x, DiffText(files));
    ScanAddsAll(x, files, text);
    DiffRead(x, files);
    RemovedIs(x, files, s);
    ReportsTheSurplus(s, text, |s.order|);
  }
}
