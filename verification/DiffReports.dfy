/** What the matcher reports of a diff, in the diff's own terms. */
module DiffReports {
  import opened Wrappers
  import opened DiffModel
  import opened DiffPatches

  // ---- numbers that increase ------------------------------------------------------------------

  /** Of the hunks that add lines, each starts behind the lines of those before it. */
  predicate HunksAscend(x: Syntax, hunks: seq<Hunk>) {
    forall i, j :: 0 <= i < j < |hunks| && PlusTexts(x, hunks[i].body) != [] && PlusTexts(x, hunks[j].body) != [] ==>
      hunks[i].start + |PlusTexts(x, hunks[i].body)| <= hunks[j].start
  }

  predicate Below(lines: seq<Line>, n: nat) {
    forall i :: 0 <= i < |lines| ==> lines[i].number < n
  }

  lemma {:induction false} HunksBelow(x: Syntax, hunks: seq<Hunk>, n: nat)
    requires forall i :: 0 <= i < |hunks| && PlusTexts(x, hunks[i].body) != [] ==>
      hunks[i].start + |PlusTexts(x, hunks[i].body)| <= n
    ensures Below(HunksAdd(x, hunks), n)
  {
    hide PlusTexts;
    if hunks != [] {
      HunksBelow(x, hunks[..|hunks| - 1], n);
    }
  }

  /** Then the lines a file gains have increasing numbers. */
  lemma {:induction false} AddedLinesIncrease(x: Syntax, hunks: seq<Hunk>)
    requires HunksAscend(x, hunks)
    ensures Increasing(HunksAdd(x, hunks))
  {
    hide PlusTexts;
    if hunks != [] {
      var before := hunks[..|hunks| - 1];
      var last := hunks[|hunks| - 1];
      AddedLinesIncrease(x, before);
      if PlusTexts(x, last.body) != [] {
        HunksBelow(x, before, last.start);
      } else {
        assert HunksAdd(x, before) + Numbered(last.start, []) == HunksAdd(x, before);
      }
    }
  }

  /** What a tool comparing two trees gives: every new file in one place, its hunks in order. */
  predicate InOrder(x: Syntax, files: seq<FilePatch>) {
    && (forall i, j :: 0 <= i < j < |files| && NewFile(files[i]).Some? ==> NewFile(files[i]) != NewFile(files[j]))
    && (forall i :: 0 <= i < |files| ==> HunksAscend(x, files[i].hunks))
  }

  lemma {:induction false} OnlyPlace(x: Syntax, files: seq<FilePatch>, i: nat)
    requires InOrder(x, files) && i < |files| && NewFile(files[i]).Some?
    ensures AddedTo(x, files, NewFile(files[i]).value) == HunksAdd(x, files[i].hunks)
  {
    hide HunksAscend, HunksAdd, NewFile;
    var last := |files| - 1;
    if i < last {
      OnlyPlace(x, files[..last], i);
    } else {
      NoPlace(x, files[..last], NewFile(files[i]).value);
    }
  }

  lemma {:induction false} NoPlace(x: Syntax, files: seq<FilePatch>, file: string)
    requires forall i :: 0 <= i < |files| ==> NewFile(files[i]) != Some(file)
    ensures AddedTo(x, files, file) == []
  {
    if files != [] {
      NoPlace(x, files[..|files| - 1], file);
    }
  }

  // ---- the reported lines ---------------------------------------------------------------------

  /** The lines whose numbers the spans cover. */
  function Reported(lines: seq<Line>, spans: seq<Span>): seq<Line> {
    if lines == [] then []
    else
      var last := lines[|lines| - 1];
      Reported(lines[..|lines| - 1], spans) + if Covered(spans, last.number) then [last] else []
  }

  lemma {:induction false} KeptAreCovered(lines: seq<Line>, removed: multiset<string>, spans: seq<Span>)
    requires Increasing(lines)
    requires forall l :: l in lines ==> (Covered(spans, l.number) <==> HasNumber(Keep(lines, removed).0, l.number))
    ensures Reported(lines, spans) == Keep(lines, removed).0
  {
    hide Covered;
    if lines != [] {
      var before := lines[..|lines| - 1];
      var last := lines[|lines| - 1];
      KeptWasAdded(before, removed);
      var kept := Keep(before, removed).0;
      forall l | l in before
        ensures l in lines && l.number < last.number
        ensures HasNumber(Keep(lines, removed).0, l.number) <==> HasNumber(kept, l.number)
      {
        BeforeLast(lines, l);
        NumberAppend(kept, last, l.number);
      }
      NumberAppend(kept, last, last.number);
      KeptAreCovered(before, removed, spans);
      assert last in lines;
    }
  }

  lemma BeforeLast(lines: seq<Line>, l: Line)
    requires lines != [] && Increasing(lines) && l in lines[..|lines| - 1]
    ensures l in lines && l.number < lines[|lines| - 1].number
  {
    var i :| 0 <= i < |lines| - 1 && lines[i] == l;
  }

  lemma NumberAppend(kept: seq<Line>, last: Line, n: nat)
    ensures HasNumber(kept + [last], n) <==> HasNumber(kept, n) || last.number == n
  {
    assert (kept + [last])[|kept|] == last;
    if i :| 0 <= i < |kept| && kept[i].number == n {
      assert (kept + [last])[i] == kept[i];
    }
  }

  /** The spans made of the kept lines cover, of the added lines, exactly those. */
  lemma SpansReportKept(lines: seq<Line>, removed: multiset<string>)
    requires Increasing(lines)
    ensures Reported(lines, Spans(Keep(lines, removed).0)) == Keep(lines, removed).0
    ensures Maximal(Spans(Keep(lines, removed).0))
    ensures forall n: nat :: Covered(Spans(Keep(lines, removed).0), n) ==> HasNumber(lines, n)
  {
    hide Keep, Spans, Covered, Maximal;
    var kept := Keep(lines, removed).0;
    KeptWasAdded(lines, removed);
    SpansAreTheLines(kept);
    KeptAreCovered(lines, removed, Spans(kept));
    forall n: nat | HasNumber(kept, n) ensures HasNumber(lines, n) {
      var i :| 0 <= i < |kept| && kept[i].number == n;
      assert kept[i] in lines;
    }
  }

  // ---- the answer, file by file ---------------------------------------------------------------

  function SpansOf(ranges: map<string, seq<Span>>, file: Option<string>): seq<Span> {
    if file.Some? && file.value in ranges then ranges[file.value] else []
  }

  /** How often a text is reported, over all files of the diff. */
  function TimesReported(x: Syntax, files: seq<FilePatch>, ranges: map<string, seq<Span>>, text: string): nat {
    if files == [] then 0
    else
      var last := files[|files| - 1];
      TimesReported(x, files[..|files| - 1], ranges, text) +
      Occurrences(Reported(HunksAdd(x, last.hunks), SpansOf(ranges, NewFile(last))), text)
  }

  lemma {:induction false} NothingCovered(lines: seq<Line>)
    ensures Reported(lines, []) == [] && forall spans :: Reported([], spans) == []
  {
    if lines != [] {
      NothingCovered(lines[..|lines| - 1]);
    }
  }

  lemma {:induction false} GainingPrefix(x: Syntax, files: seq<FilePatch>, n: nat)
    requires n <= |files|
    ensures GainingFiles(x, files[..n]) <= GainingFiles(x, files)
  {
    hide HunksAdd, NewFile;
    if n < |files| {
      assert files[..|files| - 1][..n] == files[..n];
      GainingPrefix(x, files[..|files| - 1], n);
    } else {
      assert files[..n] == files;
    }
  }

  lemma {:induction false} GainingIsPlaced(x: Syntax, files: seq<FilePatch>, file: string)
    requires file in GainingFiles(x, files)
    ensures exists i :: 0 <= i < |files| && NewFile(files[i]) == Some(file)
  {
    hide HunksAdd, NewFile;
    var last := |files| - 1;
    if file in GainingFiles(x, files[..last]) {
      GainingIsPlaced(x, files[..last], file);
      var i :| 0 <= i < last && NewFile(files[..last][i]) == Some(file);
      assert NewFile(files[i]) == Some(file);
    } else {
      assert NewFile(files[last]) == Some(file);
    }
  }

  /** The file at place k of the scan's order: what is reported of it is what was kept. */
  lemma FileIsReported(x: Syntax, files: seq<FilePatch>, s: Scan, ranges: map<string, seq<Span>>, n: nat, k: nat)
    requires InOrder(x, files) && Holds(x, files, s) && ReportedUpTo(s, ranges, |s.order|)
    requires n < |files| && k < |s.order| && NewFile(files[n]) == Some(s.order[k])
    ensures Reported(HunksAdd(x, files[n].hunks), SpansOf(ranges, NewFile(files[n]))) == KeptIn(s, k)
    ensures s.order[k] in ranges ==> Maximal(ranges[s.order[k]])
    ensures s.order[k] in ranges ==>
      forall m: nat :: Covered(ranges[s.order[k]], m) ==> HasNumber(HunksAdd(x, files[n].hunks), m)
  {
    hide Keep, Spans, Covered, Maximal, NewFile, HunksAdd, HunksAscend, LeftAfter, GainingFiles, RemovedBy;
    OnlyPlace(x, files, n);
    AddedLinesIncrease(x, files[n].hunks);
    SpansReportKept(HunksAdd(x, files[n].hunks), LeftAfter(s, k));
    NothingCovered(HunksAdd(x, files[n].hunks));
  }

  lemma {:induction false} FilesReported(x: Syntax, files: seq<FilePatch>, s: Scan, ranges: map<string, seq<Span>>,
                                         text: string, n: nat)
    requires InOrder(x, files) && Holds(x, files, s) && ReportedUpTo(s, ranges, |s.order|) && n <= |files|
    ensures |GainingFiles(x, files[..n])| <= |s.order|
    ensures TimesReported(x, files[..n], ranges, text) == KeptCount(s, text, |GainingFiles(x, files[..n])|)
  {
    hide Keep, Spans, Covered, Maximal, HunksAdd, HunksAscend, LeftAfter, RemovedBy, Occurrences, Reported, KeptIn,
      ReportedUpTo, NewFile, AddedTo, Tidy;
    GainingPrefix(x, files, n);
    if n > 0 {
      FilesReported(x, files, s, ranges, text, n - 1);
      var f := files[n - 1];
      assert files[..n][..n - 1] == files[..n - 1];
      NoOccurrence(text);
      if NewFile(f).Some? && HunksAdd(x, f.hunks) != [] {
        NotPlacedBefore(x, files, n - 1);
        FileIsReported(x, files, s, ranges, n - 1, |GainingFiles(x, files[..n - 1])|);
      } else {
        NothingCovered(HunksAdd(x, f.hunks));
      }
    }
  }

  lemma NotPlacedBefore(x: Syntax, files: seq<FilePatch>, n: nat)
    requires InOrder(x, files) && n < |files| && NewFile(files[n]).Some?
    ensures NewFile(files[n]).value !in GainingFiles(x, files[..n])
  {
    hide NewFile, HunksAscend, GainingFiles;
    if NewFile(files[n]).value in GainingFiles(x, files[..n]) {
      GainingIsPlaced(x, files[..n], NewFile(files[n]).value);
    }
  }

  /** Over all the diff's files together, a text is reported exactly as many times as the diff adds it more
      often than it removes it; and a file's spans are maximal, increasing, non-adjacent ranges of lines
      that the diff adds to it. */
  ghost predicate ReportedExactly(x: Syntax, files: seq<FilePatch>, ranges: map<string, seq<Span>>) {
    && (forall text: string ::
          TimesReported(x, files, ranges, text) == Max(0, TimesAdded(x, files, text) - RemovedBy(x, files)[text]))
    && (forall file :: file in ranges ==>
          && Maximal(ranges[file])
          && forall n: nat :: Covered(ranges[file], n) ==> HasNumber(AddedTo(x, files, file), n))
  }

  /** THE MATCHER, end to end: whatever it answers for a diff in order is exactly that. */
  lemma {:induction false} DiffIsReportedExactly(x: Syntax, files: seq<FilePatch>, ranges: map<string, seq<Span>>)
    requires Reads(x, files) && InOrder(x, files)
    requires var s := ScanOf(x, DiffText(files)); ReportedUpTo(s, ranges, |s.order|)
    ensures ReportedExactly(x, files, ranges)
  {
    hide DiffText, ReportedUpTo, InOrder, Reads, TimesReported, TimesAdded, KeptCount, RemovedBy, Holds, GainingFiles,
      ScanOf, Covered, Maximal, AddedTo;
    var s := ScanOf(x, DiffText(files));
    DiffRead(x, files);
    assert files[..|files|] == files;
    OrderIs(x, files, s);
    forall text: string
      ensures TimesReported(x, files, ranges, text) == Max(0, TimesAdded(x, files, text) - RemovedBy(x, files)[text])
    {
      FilesReported(x, files, s, ranges, text, |files|);
      DiffKeepsTheSurplus(x, files, text);
    }
    forall file | file in ranges
      ensures Maximal(ranges[file])
      ensures forall n: nat :: Covered(ranges[file], n) ==> HasNumber(AddedTo(x, files, file), n)
    {
      var k := PlaceOf(s, ranges, file);
      GainingIsPlaced(x, files, file);
      var i :| 0 <= i < |files| && NewFile(files[i]) == Some(file);
      OnlyPlace(x, files, i);
      FileIsReported(x, files, s, ranges, i, k);
    }
  }

  lemma OrderIs(x: Syntax, files: seq<FilePatch>, s: Scan)
    requires Holds(x, files, s)
    ensures s.order == GainingFiles(x, files)
  {
  }

  lemma PlaceOf(s: Scan, ranges: map<string, seq<Span>>, file: string) returns (k: nat)
    requires ReportedUpTo(s, ranges, |s.order|) && file in ranges
    ensures k < |s.order| && s.order[k] == file
  {
    assert s.order[..|s.order|] == s.order;
    k :| 0 <= k < |s.order| && s.order[k] == file;
  }
}
