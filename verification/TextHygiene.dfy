/** The moved-line matcher of scripts/check_text_hygiene.py as it runs: a counter, a line cursor and span
  lists updated in place over two passes. */
module TextHygiene {
  import opened Wrappers
  import opened DiffModel
  import opened DiffPatches
  import opened DiffReports

  class UnmovedLines {
    const syntax: Syntax
    var path: Option<string>
    var newLine: nat
    var inHunk: bool
    var removed: multiset<string>
    var order: seq<string>
    var added: map<string, seq<Line>>
    var ranges: map<string, seq<Span>>

    constructor (syntax: Syntax)
      ensures this.syntax == syntax && State() == START && ranges == map[]
    {
      this.syntax := syntax;
      path, newLine, inHunk := None, 0, false;
      removed, order, added, ranges := multiset{}, [], map[], map[];
    }

    function State(): Scan
      reads this
    {
      Scan(path, newLine, inHunk, removed, order, added)
    }

    method ReadLine(line: string)
      modifies this`path, this`newLine, this`inHunk, this`removed, this`order, this`added
      ensures State() == Next(syntax, old(State()), line)
    {
      hide WithLine;
      if "diff --git " <= line {
        path, inHunk := None, false;
      } else if !inHunk && "+++ " <= line {
        path := if "+++ b/" <= line then Some(line[6..]) else None;
      } else if "@@" <= line {
        var start := syntax.hunkStart(line);
        inHunk := start.Some?;
        newLine := if start.Some? then start.value else 0;
      } else if inHunk && "-" <= line {
        removed := removed + multiset{syntax.strip(line[1..])};
      } else if inHunk && "+" <= line {
        if path.Some? && path.value != "" {
          AddLine(path.value, Line(newLine, syntax.strip(line[1..])));
        }
        newLine := newLine + 1;
      }
    }

    /** `added.setdefault(path, []).append(line)` */
    method AddLine(file: string, line: Line)
      modifies this`order, this`added
      ensures State() == WithLine(old(State()), file, line)
    {
      if file !in added {
        added := added[file := []];
        order := order + [file];
      }
      added := added[file := added[file] + [line]];
    }

    /** One file of the second pass: a line still in the counter is a move and uses one up. */
    method ReportFile(file: string)
      requires file in added && file !in ranges
      modifies this`removed, this`ranges
      ensures removed == Keep(added[file], old(removed)).1
      ensures Recorded(old(ranges), ranges, file, Keep(added[file], old(removed)).0)
    {
      hide Keep, Recorded;
      var lines := added[file];
      NothingKept(ranges, file, lines, removed);
      for n := 0 to |lines|
        invariant removed == Keep(lines[..n], old(removed)).1
        invariant Recorded(old(ranges), ranges, file, Keep(lines[..n], old(removed)).0)
      {
        var line := lines[n];
        KeepStep(lines, n, old(removed));
        if removed[line.text] > 0 {
          removed := removed - multiset{line.text};
          continue;
        }
        RecordStep(old(ranges), ranges, file, Keep(lines[..n], old(removed)).0, line);
        var spans := if file in ranges then ranges[file] else [];
        if spans != [] && spans[|spans| - 1].1 == line.number - 1 {
          spans := spans[..|spans| - 1] + [(spans[|spans| - 1].0, line.number)];
        } else {
          spans := spans + [(line.number, line.number)];
        }
        ranges := ranges[file := spans];
      }
      assert lines[..|lines|] == lines;
    }

    static lemma NothingKept(ranges: map<string, seq<Span>>, file: string, lines: seq<Line>, removed: multiset<string>)
      ensures Keep(lines[..0], removed) == ([], removed) && Recorded(ranges, ranges, file, [])
    {
    }

    /** The second pass, file by file in the order of the first. */
    method ReportAll()
      requires Tidy(State()) && ranges == map[]
      modifies this`removed, this`ranges
      ensures ReportedUpTo(old(State()), ranges, |old(order)|)
    {
      hide Keep, Recorded, ReportedUpTo, Tidy;
      ghost var s := State();
      NothingReported(s);
      for i := 0 to |order|
        invariant removed == LeftAfter(s, i) && ReportedUpTo(s, ranges, i)
      {
        NotYetReported(s, ranges, i);
        ghost var before := ranges;
        ReportFile(order[i]);
        ReportStep(s, before, ranges, i);
      }
    }

    static lemma NothingReported(s: Scan)
      ensures ReportedUpTo(s, map[], 0) && LeftAfter(s, 0) == s.removed
    {
    }
  }

  /** Every file of the diff with a reported line, and its spans: of a diff in order, exactly the surplus. */
  method UnmovedRanges(syntax: Syntax, diff: seq<string>) returns (ranges: map<string, seq<Span>>)
    ensures ReportedUpTo(ScanOf(syntax, diff), ranges, |ScanOf(syntax, diff).order|)
    ensures forall files: seq<FilePatch> ::
      diff == DiffText(files) && Reads(syntax, files) && InOrder(syntax, files) ==>
      ReportedExactly(syntax, files, ranges)
  {
    hide Next, ReportedUpTo, Tidy, DiffText, Reads, InOrder, ReportedExactly;
    var m := new UnmovedLines(syntax);
    for k := 0 to |diff|
      invariant m.syntax == syntax && m.ranges == map[] && m.State() == ScanOf(syntax, diff[..k])
    {
      assert diff[..k + 1][..k] == diff[..k];
      m.ReadLine(diff[k]);
    }
    assert diff[..|diff|] == diff;
    ScanIsTidy(syntax, diff);
    m.ReportAll();
    ranges := m.ranges;
    forall files: seq<FilePatch> | diff == DiffText(files) && Reads(syntax, files) && InOrder(syntax, files)
      ensures ReportedExactly(syntax, files, ranges)
    {
      DiffIsReportedExactly(syntax, files, ranges);
    }
  }
}
