/** The moved-line matcher of scripts/check_text_hygiene.py: of the lines a diff adds, those whose exact
  text it removes elsewhere are moves; the rest are reported as line ranges. */
module DiffModel {
  import opened Wrappers

  /** How a diff line is read: the new-file start a hunk header names (None when the line does not
      parse as one), and a text without its trailing white space. */
  datatype Syntax = Syntax(hunkStart: string -> Option<nat>, strip: string -> string)

  datatype Line = Line(number: nat, text: string)

  /** The state of the first pass. Files are kept in the order in which they first gained a line. */
  datatype Scan = Scan(
    path: Option<string>, newLine: nat, inHunk: bool, removed: multiset<string>,
    order: seq<string>, added: map<string, seq<Line>>)

  const START := Scan(None, 0, false, multiset{}, [], map[])

  function PathOf(line: string): Option<string> {
    if "+++ b/" <= line then Some(line[6..]) else None
  }

  function LinesOf(added: map<string, seq<Line>>, path: string): seq<Line> {
    if path in added then added[path] else []
  }

  function WithLine(s: Scan, path: string, line: Line): Scan {
    s.(order := if path in s.added then s.order else s.order + [path],
       added := s.added[path := LinesOf(s.added, path) + [line]])
  }

  /** One diff line. */
  function Next(x: Syntax, s: Scan, line: string): Scan {
    if "diff --git " <= line then s.(path := None, inHunk := false)
    else if !s.inHunk && "+++ " <= line then s.(path := PathOf(line))
    else if "@@" <= line then
      var start := x.hunkStart(line);
      s.(inHunk := start.Some?, newLine := if start.Some? then start.value else 0)
    else if s.inHunk && "-" <= line then s.(removed := s.removed + multiset{x.strip(line[1..])})
    else if s.inHunk && "+" <= line then
      var grown := if s.path.Some? && s.path.value != ""
                   then WithLine(s, s.path.value, Line(s.newLine, x.strip(line[1..]))) else s;
      grown.(newLine := s.newLine + 1)
    else s
  }

  function ScanFrom(x: Syntax, s: Scan, lines: seq<string>): Scan {
    if lines == [] then s else Next(x, ScanFrom(x, s, lines[..|lines| - 1]), lines[|lines| - 1])
  }

  function ScanOf(x: Syntax, diff: seq<string>): Scan {
    ScanFrom(x, START, diff)
  }

  predicate Tidy(s: Scan) {
    && (forall p :: p in s.order ==> p in s.added)
    && (forall p :: p in s.added ==> p in s.order)
    && (forall i, j :: 0 <= i < j < |s.order| ==> s.order[i] != s.order[j])
  }

  lemma {:induction false} ScanIsTidy(x: Syntax, diff: seq<string>)
    ensures Tidy(ScanOf(x, diff))
  {
    if diff != [] {
      ScanIsTidy(x, diff[..|diff| - 1]);
    }
  }

  // ---- the second pass ----------------------------------------------------------------------

  /** The lines of one file that are no moves, and the removals not yet used up. */
  function Keep(lines: seq<Line>, removed: multiset<string>): (seq<Line>, multiset<string>) {
    if lines == [] then ([], removed)
    else
      var (kept, left) := Keep(lines[..|lines| - 1], removed);
      var last := lines[|lines| - 1];
      if left[last.text] > 0 then (kept, left - multiset{last.text}) else (kept + [last], left)
  }

  /** The removals left after the first i files. */
  function LeftAfter(s: Scan, i: nat): multiset<string>
    requires i <= |s.order|
  {
    if i == 0 then s.removed else Keep(LinesOf(s.added, s.order[i - 1]), LeftAfter(s, i - 1)).1
  }

  function KeptIn(s: Scan, i: nat): seq<Line>
    requires i < |s.order|
  {
    Keep(LinesOf(s.added, s.order[i]), LeftAfter(s, i)).0
  }

  type Span = (nat, nat)

  /** A reported line extends the last span or begins the next. */
  function Extend(spans: seq<Span>, n: nat): seq<Span> {
    if spans != [] && spans[|spans| - 1].1 == n - 1
    then spans[..|spans| - 1] + [(spans[|spans| - 1].0, n)]
    else spans + [(n, n)]
  }

  function Spans(lines: seq<Line>): seq<Span> {
    if lines == [] then [] else Extend(Spans(lines[..|lines| - 1]), lines[|lines| - 1].number)
  }

  lemma KeepStep(lines: seq<Line>, n: nat, removed: multiset<string>)
    requires n < |lines|
    ensures Keep(lines[..n + 1], removed) ==
      var (kept, left) := Keep(lines[..n], removed);
      if left[lines[n].text] > 0 then (kept, left - multiset{lines[n].text}) else (kept + [lines[n]], left)
  {
    assert lines[..n + 1][..n] == lines[..n];
  }

  /** The ranges before, with the spans of the file's reported lines if it has any. */
  predicate Recorded(before: map<string, seq<Span>>, now: map<string, seq<Span>>, file: string, kept: seq<Line>) {
    now == if kept == [] then before else before[file := Spans(kept)]
  }

  lemma RecordStep(before: map<string, seq<Span>>, now: map<string, seq<Span>>, file: string, kept: seq<Line>,
                   line: Line)
    requires file !in before && Recorded(before, now, file, kept)
    ensures var spans := Extend(if file in now then now[file] else [], line.number);
      Recorded(before, now[file := spans], file, kept + [line])
  {
    assert (kept + [line])[..|kept|] == kept;
  }

  /** The first i files have been reported, and nothing else. */
  predicate ReportedUpTo(s: Scan, ranges: map<string, seq<Span>>, i: nat)
    requires i <= |s.order|
  {
    && (forall k :: 0 <= k < i ==>
          (s.order[k] in ranges <==> KeptIn(s, k) != []) &&
          (s.order[k] in ranges ==> ranges[s.order[k]] == Spans(KeptIn(s, k))))
    && (forall p :: p in ranges ==> p in s.order[..i])
  }

  lemma ReportStep(s: Scan, ranges: map<string, seq<Span>>, later: map<string, seq<Span>>, i: nat)
    requires Tidy(s) && i < |s.order| && ReportedUpTo(s, ranges, i)
    requires Recorded(ranges, later, s.order[i], KeptIn(s, i))
    ensures ReportedUpTo(s, later, i + 1)
  {
    hide KeptIn, Spans;
  }

  lemma NotYetReported(s: Scan, ranges: map<string, seq<Span>>, i: nat)
    requires Tidy(s) && i < |s.order| && ReportedUpTo(s, ranges, i)
    ensures s.order[i] !in ranges && s.order[i] in s.added
  {
    assert s.order[i] in s.order;
  }

  // ---- exactly the surplus is reported ------------------------------------------------------

  function Occurrences(lines: seq<Line>, text: string): nat {
    if lines == [] then 0
    else Occurrences(lines[..|lines| - 1], text) + (if lines[|lines| - 1].text == text then 1 else 0)
  }

  lemma {:induction false} KeepCounts(lines: seq<Line>, removed: multiset<string>, text: string)
    ensures var (kept, left) := Keep(lines, removed);
      && Occurrences(kept, text) == Max(0, Occurrences(lines, text) - removed[text])
      && left[text] == Max(0, removed[text] - Occurrences(lines, text))
  {
    hide Keep, Occurrences;
    CountsUnfold(lines, removed, text);
    if lines != [] {
      var before := lines[..|lines| - 1];
      KeepCounts(before, removed, text);
      var (kept, left) := Keep(before, removed);
      OccurrencesAppend(kept, lines[|lines| - 1], text);
    }
  }

  lemma CountsUnfold(lines: seq<Line>, removed: multiset<string>, text: string)
    ensures lines == [] ==> Keep(lines, removed) == ([], removed) && Occurrences(lines, text) == 0
    ensures Occurrences([], text) == 0
    ensures lines != [] ==>
      var last := lines[|lines| - 1];
      var (kept, left) := Keep(lines[..|lines| - 1], removed);
      && Keep(lines, removed) ==
         (if left[last.text] > 0 then (kept, left - multiset{last.text}) else (kept + [last], left))
      && Occurrences(lines, text) == Occurrences(lines[..|lines| - 1], text) + (if last.text == text then 1 else 0)
  {
  }

  lemma OccurrencesAppend(lines: seq<Line>, last: Line, text: string)
    ensures Occurrences(lines + [last], text) == Occurrences(lines, text) + (if last.text == text then 1 else 0)
  {
    assert (lines + [last])[..|lines|] == lines;
  }

  function AddedCount(s: Scan, text: string, i: nat): nat
    requires i <= |s.order|
  {
    if i == 0 then 0 else AddedCount(s, text, i - 1) + Occurrences(LinesOf(s.added, s.order[i - 1]), text)
  }

  function KeptCount(s: Scan, text: string, i: nat): nat
    requires i <= |s.order|
  {
    if i == 0 then 0 else KeptCount(s, text, i - 1) + Occurrences(KeptIn(s, i - 1), text)
  }

  /** THE MATCHER: over all files together, a text is reported exactly as many times as it is added more
      often than it is removed - whatever the order of the files. */
  lemma {:induction false} ReportsTheSurplus(s: Scan, text: string, i: nat)
    requires i <= |s.order|
    ensures KeptCount(s, text, i) == Max(0, AddedCount(s, text, i) - s.removed[text])
    ensures LeftAfter(s, i)[text] == Max(0, s.removed[text] - AddedCount(s, text, i))
  {
    hide Keep, Occurrences;
    if i > 0 {
      ReportsTheSurplus(s, text, i - 1);
      KeepCounts(LinesOf(s.added, s.order[i - 1]), LeftAfter(s, i - 1), text);
    }
  }

  /** The lines among the first n of file i whose text had been added, in that file and those before it, at
      least as often as the diff removes it. */
  function Late(s: Scan, i: nat, n: nat): seq<Line>
    requires i < |s.order| && n <= |LinesOf(s.added, s.order[i])|
  {
    if n == 0 then []
    else
      var lines := LinesOf(s.added, s.order[i]);
      var line := lines[n - 1];
      Late(s, i, n - 1) +
      if AddedCount(s, line.text, i) + Occurrences(lines[..n - 1], line.text) >= s.removed[line.text]
      then [line] else []
  }

  /** WHICH ONES: of the lines of one text the first are the moves, as many as are removed; the later ones are
      reported. */
  lemma {:induction false} KeptAreTheLate(s: Scan, i: nat, n: nat)
    requires i < |s.order| && n <= |LinesOf(s.added, s.order[i])|
    ensures Keep(LinesOf(s.added, s.order[i])[..n], LeftAfter(s, i)).0 == Late(s, i, n)
  {
    hide Occurrences, AddedCount, Keep, LeftAfter, LinesOf;
    var lines := LinesOf(s.added, s.order[i]);
    CountsUnfold(lines[..n], LeftAfter(s, i), "");
    if n > 0 {
      var text := lines[n - 1].text;
      KeptAreTheLate(s, i, n - 1);
      KeepStep(lines, n - 1, LeftAfter(s, i));
      KeepCounts(lines[..n - 1], LeftAfter(s, i), text);
      ReportsTheSurplus(s, text, i);
    }
  }

  /** And so of a whole file. */
  lemma {:induction false} FileKeepsTheLate(s: Scan, i: nat)
    requires i < |s.order|
    ensures KeptIn(s, i) == Late(s, i, |LinesOf(s.added, s.order[i])|)
  {
    hide Keep, Late;
    var lines := LinesOf(s.added, s.order[i]);
    KeptAreTheLate(s, i, |lines|);
    assert lines[..|lines|] == lines;
  }

  // ---- the spans are the reported lines -----------------------------------------------------

  predicate Increasing(lines: seq<Line>) {
    forall i, j :: 0 <= i < j < |lines| ==> lines[i].number < lines[j].number
  }

  /** Every reported line was added, and in the same order. */
  lemma {:induction false} KeptWasAdded(lines: seq<Line>, removed: multiset<string>)
    ensures forall l :: l in Keep(lines, removed).0 ==> l in lines
    ensures Increasing(lines) ==> Increasing(Keep(lines, removed).0)
  {
    if lines != [] {
      var before := lines[..|lines| - 1];
      KeptWasAdded(before, removed);
      assert forall l :: l in before ==> l in lines;
      if Increasing(lines) {
        assert Increasing(before);
        forall l | l in before ensures l.number < lines[|lines| - 1].number {
          var i :| 0 <= i < |before| && before[i] == l;
          assert lines[i] == l;
        }
      }
    }
  }

  predicate InSpan(span: Span, n: nat) {
    span.0 <= n <= span.1
  }

  predicate Covered(spans: seq<Span>, n: nat) {
    exists i :: 0 <= i < |spans| && InSpan(spans[i], n)
  }

  predicate HasNumber(lines: seq<Line>, n: nat) {
    exists i :: 0 <= i < |lines| && lines[i].number == n
  }

  /** Non-empty, increasing, and with a gap of at least one line between neighbours. */
  predicate Maximal(spans: seq<Span>) {
    && (forall i :: 0 <= i < |spans| ==> spans[i].0 <= spans[i].1)
    && (forall i, j :: 0 <= i < j < |spans| ==> spans[i].1 + 1 < spans[j].0)
  }

  /** The spans cover exactly the reported lines, as maximal, increasing, non-adjacent ranges. */
  lemma {:induction false} SpansAreTheLines(lines: seq<Line>)
    requires Increasing(lines)
    ensures Maximal(Spans(lines))
    ensures forall n: nat :: Covered(Spans(lines), n) <==> HasNumber(lines, n)
    ensures lines != [] ==> Spans(lines) != [] && Spans(lines)[|Spans(lines)| - 1].1 == lines[|lines| - 1].number
  {
    hide Extend, Maximal, Covered;
    if lines == [] {
      NoSpans();
    } else {
      var before := lines[..|lines| - 1];
      var n := lines[|lines| - 1].number;
      assert Increasing(before);
      SpansAreTheLines(before);
      assert before != [] ==> before[|before| - 1] == lines[|lines| - 2];
      SpanExtends(Spans(before), Spans(lines), n);
      forall m: nat ensures HasNumber(lines, m) <==> HasNumber(before, m) || m == n {
        if HasNumber(before, m) {
          var i :| 0 <= i < |before| && before[i].number == m;
          assert lines[i].number == m;
        }
        if m == n {
          assert lines[|lines| - 1].number == m;
        }
        if i :| 0 <= i < |lines| && lines[i].number == m && m != n {
          assert before[i] == lines[i];
        }
      }
    }
  }

  lemma NoSpans()
    ensures Maximal([]) && forall n: nat :: !Covered([], n)
  {
  }

  lemma SpanExtends(spans: seq<Span>, later: seq<Span>, n: nat)
    requires Maximal(spans) && (spans != [] ==> spans[|spans| - 1].1 < n)
    requires later == Extend(spans, n)
    ensures Maximal(later) && later != [] && later[|later| - 1].1 == n
    ensures forall m: nat :: Covered(later, m) <==> Covered(spans, m) || m == n
  {
    var last := |later| - 1;
    assert InSpan(later[last], n);
    forall m: nat ensures Covered(later, m) <==> Covered(spans, m) || m == n {
      if i :| 0 <= i < |spans| && InSpan(spans[i], m) {
        assert InSpan(later[i], m);
      }
      if i :| 0 <= i < |later| && InSpan(later[i], m) && m != n {
        assert InSpan(spans[i], m);
      }
    }
  }
}
