/** What holds of the log of MG_Backend/GpuHangWatch over every run. */
module WatchLaws {
  import opened Wrappers
  import opened HangModel
  import opened WatchModel

  /** After this event the registration is never called again. */
  predicate Final(e: Event) {
    e.Hung? || e.Ended? || (e.Sampled? && e.report.Gone?)
  }

  /** Using a handle: handing it out, or calling into its registration. */
  predicate Uses(e: Event) {
    e.Began? || e.Sampled? || e.Hung?
  }

  /** The samples one registration reported, oldest first. */
  function HistoryOf(log: seq<Event>, handle: Uint64): seq<Sample> {
    if log == [] then []
    else
      var last := log[|log| - 1];
      HistoryOf(log[..|log| - 1], handle) +
      if last.Sampled? && last.handle == handle && last.report.Progress?
      then [Sample(last.report.submissions, last.nowMs)] else []
  }

  /** A hang is reported for the submission this registration's own samples condemn, with the time it
      has been seen running. */
  ghost predicate Justifies(log: seq<Event>, hung: Event)
    requires hung.Hung?
  {
    var history := HistoryOf(log, hung.handle);
    history != [] && hung.submission != 0 &&
    exists budget: Uint32 :: Began(hung.handle, budget) in log && hung.submission == Named(budget, history) &&
      hung.runningMs == RunningMs(After(history), hung.submission, history[|history| - 1].nowMs)
  }

  /** No handle is used after its registration is over, nor handed out twice; and a hang is reported
      only straight after the sample that showed it. */
  ghost predicate Orderly(log: seq<Event>) {
    UsedOnce(log) && Reported(log)
  }

  ghost predicate UsedOnce(log: seq<Event>) {
    && (forall i, j :: 0 <= i < j < |log| && Final(log[i]) && Uses(log[j]) ==> log[i].handle != log[j].handle)
    && (forall i, j :: 0 <= i < j < |log| && log[i].Began? && log[j].Began? ==> log[i].handle != log[j].handle)
    && (forall j :: 0 <= j < |log| && Uses(log[j]) ==> log[j].handle != 0)
  }

  ghost predicate Reported(log: seq<Event>) {
    forall j :: 0 <= j < |log| && log[j].Hung? ==>
      0 < j && log[j - 1].Sampled? && log[j - 1].handle == log[j].handle && Justifies(log[..j], log[j])
  }

  /** Event `j` is a sample that condemns a submission of the registration, whose budget is `budget`. */
  ghost predicate Condemns(log: seq<Event>, j: nat, budget: Uint32) {
    j < |log| && log[j].Sampled? && log[j].report.Progress? && Began(log[j].handle, budget) in log[..j] &&
    var history := HistoryOf(log[..j + 1], log[j].handle);
    history != [] && Named(budget, history) != 0
  }

  /** A sample that condemns is answered at once: the next event reports it to that registration. */
  ghost predicate Answered(log: seq<Event>) {
    forall j: nat, budget: Uint32 :: Condemns(log, j, budget) ==>
      j + 1 < |log| && log[j + 1].Hung? && log[j + 1].handle == log[j].handle
  }

  ghost predicate Over(log: seq<Event>, handle: Uint64) {
    exists i :: 0 <= i < |log| && log[i].handle == handle && Final(log[i])
  }

  ghost predicate Mentions(log: seq<Event>, handle: Uint64) {
    exists i :: 0 <= i < |log| && log[i].handle == handle
  }

  /** An entry is what its own samples make of it, whatever the others reported; and while it is
      still watched, those samples condemn nothing. */
  ghost predicate Faithful(e: Entry, log: seq<Event>) {
    && e.handle != 0
    && e.running == After(HistoryOf(log, e.handle))
    && (e.done <==> Over(log, e.handle))
    && Began(e.handle, e.budget) in log
    && (!e.done && HistoryOf(log, e.handle) != [] ==> Named(e.budget, HistoryOf(log, e.handle)) == 0)
  }

  ghost predicate Distinct(entries: seq<Entry>) {
    forall i, j :: 0 <= i < j < |entries| ==> entries[i].handle != entries[j].handle
  }

  /** The watch after `issued` registrations, while the 64-bit counter has not used up its handles. */
  ghost predicate Consistent(w: Watch, issued: nat) {
    && issued < TWO_64 && w.nextHandle == (issued + 1) % TWO_64
    && Distinct(w.entries)
    && (forall i :: 0 <= i < |w.entries| ==> Faithful(w.entries[i], w.log) && w.entries[i].handle <= issued)
    && (forall h: Uint64 :: h > issued ==> !Mentions(w.log, h))
    && Orderly(w.log) && Answered(w.log)
  }

  // ---- growing the log ----------------------------------------------------------------------

  /** Nothing about `handle` has been added. */
  ghost predicate SameFor(log: seq<Event>, later: seq<Event>, handle: Uint64) {
    && HistoryOf(later, handle) == HistoryOf(log, handle)
    && (Over(later, handle) <==> Over(log, handle))
    && (Mentions(later, handle) <==> Mentions(log, handle))
    && (forall b :: Began(handle, b) in log ==> Began(handle, b) in later)
  }

  lemma AppendOne(log: seq<Event>, e: Event)
    ensures var later := log + [e];
      && (forall h: Uint64 :: h != e.handle ==> SameFor(log, later, h))
      && (Over(later, e.handle) <==> Over(log, e.handle) || Final(e))
      && Mentions(later, e.handle)
      && HistoryOf(later, e.handle) ==
           (if e.Sampled? && e.report.Progress?
            then HistoryOf(log, e.handle) + [Sample(e.report.submissions, e.nowMs)]
            else HistoryOf(log, e.handle))
  {
    var later := log + [e];
    assert later[..|log|] == log && later[|log|] == e;
    assert forall i :: 0 <= i < |log| ==> later[i] == log[i];
    forall h: Uint64
      ensures (Over(log, h) ==> Over(later, h)) && (Mentions(log, h) ==> Mentions(later, h))
    {
      if i :| 0 <= i < |log| && log[i].handle == h && Final(log[i]) {
        assert later[i] == log[i];
      }
      if i :| 0 <= i < |log| && log[i].handle == h {
        assert later[i] == log[i];
      }
    }
  }

  lemma OrderlyAppend(log: seq<Event>, e: Event)
    requires Orderly(log)
    requires Uses(e) ==> e.handle != 0 && !Over(log, e.handle)
    requires e.Began? ==> !Mentions(log, e.handle)
    requires e.Hung? ==> |log| > 0 && log[|log| - 1].Sampled? && log[|log| - 1].handle == e.handle && Justifies(log, e)
    ensures Orderly(log + [e])
  {
    hide UsedOnce, Reported;
    UsedOnceAppend(log, e);
    ReportedAppend(log, e);
  }

  lemma UsedOnceAppend(log: seq<Event>, e: Event)
    requires UsedOnce(log)
    requires Uses(e) ==> e.handle != 0 && !Over(log, e.handle)
    requires e.Began? ==> !Mentions(log, e.handle)
    ensures UsedOnce(log + [e])
  {
  }

  lemma ReportedAppend(log: seq<Event>, e: Event)
    requires Reported(log)
    requires e.Hung? ==> |log| > 0 && log[|log| - 1].Sampled? && log[|log| - 1].handle == e.handle && Justifies(log, e)
    ensures Reported(log + [e])
  {
    hide Justifies;
    assert forall j :: 0 <= j < |log| ==> (log + [e])[..j] == log[..j];
    assert (log + [e])[..|log|] == log;
  }

  lemma CondemnsBefore(log: seq<Event>, more: seq<Event>, j: nat, budget: Uint32)
    requires j < |log|
    ensures Condemns(log + more, j, budget) <==> Condemns(log, j, budget)
  {
    assert (log + more)[..j] == log[..j] && (log + more)[..j + 1] == log[..j + 1];
  }

  /** An event that condemns nothing needs no answer. */
  lemma AnsweredAppend(log: seq<Event>, e: Event)
    requires Answered(log) && forall budget: Uint32 :: !Condemns(log + [e], |log|, budget)
    ensures Answered(log + [e])
  {
    hide Condemns;
    forall j: nat, budget: Uint32 | Condemns(log + [e], j, budget)
      ensures j + 1 < |log| && log[j + 1].Hung? && log[j + 1].handle == log[j].handle
    {
      InsideOfLog(log + [e], j, budget);
      CondemnsBefore(log, [e], j, budget);
    }
  }

  lemma InsideOfLog(log: seq<Event>, j: nat, budget: Uint32)
    requires Condemns(log, j, budget)
    ensures j < |log| && log[j].Sampled?
  {
  }

  lemma AnsweredPair(log: seq<Event>, sampled: Event, hung: Event)
    requires Answered(log) && hung.Hung? && hung.handle == sampled.handle
    ensures Answered(log + [sampled, hung])
  {
    hide Condemns;
    var later := log + [sampled, hung];
    forall j: nat, budget: Uint32 | Condemns(later, j, budget)
      ensures j + 1 < |later| && later[j + 1].Hung? && later[j + 1].handle == later[j].handle
    {
      InsideOfLog(later, j, budget);
      if j < |log| {
        CondemnsBefore(log, [sampled, hung], j, budget);
      }
    }
  }

  lemma NoSampleNoCondemning(log: seq<Event>, e: Event)
    requires Answered(log) && !e.Sampled?
    ensures Answered(log + [e])
  {
    AnsweredAppend(log, e);
  }

  /** The budget a registration began with is the only one. */
  lemma OneBudget(log: seq<Event>, handle: Uint64, a: Uint32, b: Uint32)
    requires Orderly(log) && Began(handle, a) in log && Began(handle, b) in log
    ensures a == b
  {
    hide Reported;
    var i :| 0 <= i < |log| && log[i] == Began(handle, a);
    var j :| 0 <= j < |log| && log[j] == Began(handle, b);
  }

  // ---- every step keeps the log in order ----------------------------------------------------

  lemma AfterStep(history: seq<Sample>, next: Sample)
    ensures After(history + [next]) == Advance(After(history), next.submissions, next.nowMs)
  {
    assert (history + [next])[..|history|] == history;
  }

  lemma FaithfulTransfer(e: Entry, log: seq<Event>, later: seq<Event>)
    requires Faithful(e, log) && SameFor(log, later, e.handle)
    ensures Faithful(e, later)
  {
  }

  lemma SameForTransitive(log: seq<Event>, mid: seq<Event>, later: seq<Event>, handle: Uint64)
    requires SameFor(log, mid, handle) && SameFor(mid, later, handle)
    ensures SameFor(log, later, handle)
  {
  }

  /** One sample of a live registration. */
  lemma SampleKeeps(e: Entry, report: Report, now: Uint64, log: seq<Event>)
    requires Faithful(e, log) && Orderly(log) && !e.done
    ensures var later := log + [Sampled(e.handle, now, report)];
      && Orderly(later)
      && (forall h: Uint64 :: h != e.handle ==> SameFor(log, later, h))
      && Began(e.handle, e.budget) in later
      && (Over(later, e.handle) <==> report.Gone?)
      && After(HistoryOf(later, e.handle)) ==
         (if report.Progress? then Advance(e.running, report.submissions, now) else e.running)
      && (report.Progress? ==>
            var history := HistoryOf(later, e.handle);
            history != [] && history[|history| - 1].nowMs == now)
  {
    hide Advance, After, HistoryOf, SameFor, Orderly;
    var sampled := Sampled(e.handle, now, report);
    AppendOne(log, sampled);
    OrderlyAppend(log, sampled);
    if report.Progress? {
      AfterStep(HistoryOf(log, e.handle), Sample(report.submissions, now));
    }
  }

  /** One turn of a poll answers its own sample. */
  lemma PollEntryAnswers(e: Entry, report: Report, now: Uint64, log: seq<Event>)
    requires Faithful(e, log) && Orderly(log) && Answered(log)
    ensures Answered(log + PollEntry(e, report, now).1)
  {
    hide Advance, After, HistoryOf, SameFor, Orderly, FirstOverdue, RunningMs, Over, Condemns;
    var calls := PollEntry(e, report, now).1;
    if e.done {
      assert log + calls == log;
    } else if |calls| == 2 {
      AnsweredPair(log, calls[0], calls[1]);
    } else {
      forall budget: Uint32 ensures !Condemns(log + calls, |log|, budget) {
        QuietSample(e, report, now, log, budget);
      }
      AnsweredAppend(log, calls[0]);
    }
  }

  lemma QuietSample(e: Entry, report: Report, now: Uint64, log: seq<Event>, budget: Uint32)
    requires Faithful(e, log) && Orderly(log) && !e.done
    requires PollEntry(e, report, now).1 == [Sampled(e.handle, now, report)]
    ensures !Condemns(log + [Sampled(e.handle, now, report)], |log|, budget)
  {
    hide Advance, After, HistoryOf, SameFor, Orderly, FirstOverdue, RunningMs, Over;
    var later := log + [Sampled(e.handle, now, report)];
    if Condemns(later, |log|, budget) {
      SampleKeeps(e, report, now, log);
      assert later[..|log|] == log && later[..|log| + 1] == later;
      OneBudget(log, e.handle, e.budget, budget);
      assert false;
    }
  }

  lemma PollEntryKeeps(e: Entry, report: Report, now: Uint64, log: seq<Event>)
    requires Faithful(e, log) && Orderly(log)
    ensures var (polled, calls) := PollEntry(e, report, now);
      && polled.handle == e.handle && polled.budget == e.budget
      && Faithful(polled, log + calls) && Orderly(log + calls)
      && (forall h: Uint64 :: h != e.handle ==> SameFor(log, log + calls, h))
  {
    hide Advance, After, HistoryOf, SameFor, Orderly, FirstOverdue, RunningMs, Over;
    var (polled, calls) := PollEntry(e, report, now);
    if e.done {
      NothingAdded(log, calls);
    } else {
      SampleKeeps(e, report, now, log);
      var sampled := log + [Sampled(e.handle, now, report)];
      if |calls| == 1 {
        assert log + calls == sampled;
      } else {
        AppendOne(sampled, calls[1]);
        OrderlyAppend(sampled, calls[1]);
        assert log + calls == sampled + [calls[1]];
        forall h: Uint64 | h != e.handle ensures SameFor(log, log + calls, h) {
          SameForTransitive(log, sampled, log + calls, h);
        }
      }
    }
  }

  lemma NothingAdded(log: seq<Event>, calls: seq<Event>)
    requires calls == []
    ensures log + calls == log && forall h: Uint64 :: SameFor(log, log + calls, h)
  {
  }

  lemma {:induction false} PollKeeps(entries: seq<Entry>, reports: Uint64 -> Report, now: Uint64, log: seq<Event>)
    requires Orderly(log) && Answered(log) && Distinct(entries)
    requires forall i :: 0 <= i < |entries| ==> Faithful(entries[i], log)
    ensures var (polled, calls) := Poll(entries, reports, now);
      && |polled| == |entries|
      && (forall i :: 0 <= i < |entries| ==>
            polled[i].handle == entries[i].handle && Faithful(polled[i], log + calls))
      && Orderly(log + calls) && Answered(log + calls)
      && (forall h: Uint64 :: !Registered(entries, h) ==> SameFor(log, log + calls, h))
  {
    hide Orderly, Answered, Faithful, SameFor, PollEntry, HistoryOf;
    if entries == [] {
      NothingAdded(log, []);
    } else {
      var last := |entries| - 1;
      var e := entries[last];
      PollKeeps(entries[..last], reports, now, log);
      var (before, calls) := Poll(entries[..last], reports, now);
      var (polled, more) := PollEntry(e, reports(e.handle), now);
      assert !Registered(entries[..last], e.handle);
      FaithfulTransfer(e, log, log + calls);
      PollEntryKeeps(e, reports(e.handle), now, log + calls);
      PollEntryAnswers(e, reports(e.handle), now, log + calls);
      assert log + (calls + more) == log + calls + more;
      forall i | 0 <= i < last ensures Faithful(before[i], log + calls + more) {
        assert before[i].handle == entries[..last][i].handle != e.handle;
        FaithfulTransfer(before[i], log + calls, log + calls + more);
      }
      forall h: Uint64 | !Registered(entries, h) ensures SameFor(log, log + (calls + more), h) {
        NotRegisteredBefore(entries, h);
        SameForTransitive(log, log + calls, log + calls + more, h);
      }
    }
  }

  /** The samples among some events, in their order. */
  function SamplesIn(calls: seq<Event>): seq<Event> {
    if calls == [] then []
    else
      var last := calls[|calls| - 1];
      SamplesIn(calls[..|calls| - 1]) + if last.Sampled? then [last] else []
  }

  /** One sample of each live entry, in the entries' order. */
  function SampleEach(entries: seq<Entry>, reports: Uint64 -> Report, now: Uint64): seq<Event> {
    if entries == [] then []
    else
      var last := entries[|entries| - 1];
      SampleEach(entries[..|entries| - 1], reports, now) +
      if last.done then [] else [Sampled(last.handle, now, reports(last.handle))]
  }

  /** A poll samples every live entry, once each and in order, and no other. */
  lemma {:induction false} PollSamplesEach(entries: seq<Entry>, reports: Uint64 -> Report, now: Uint64)
    ensures SamplesIn(Poll(entries, reports, now).1) == SampleEach(entries, reports, now)
  {
    hide PollEntry;
    if entries != [] {
      var last := |entries| - 1;
      PollSamplesEach(entries[..last], reports, now);
      var calls := Poll(entries[..last], reports, now).1;
      SamplesOfTurn(calls, entries[last], reports(entries[last].handle), now);
    }
  }

  lemma SamplesOfTurn(calls: seq<Event>, e: Entry, report: Report, now: Uint64)
    ensures SamplesIn(calls + PollEntry(e, report, now).1) ==
            SamplesIn(calls) + if e.done then [] else [Sampled(e.handle, now, report)]
  {
    hide Advance, FirstOverdue, RunningMs;
    var more := PollEntry(e, report, now).1;
    if |more| == 0 {
      assert calls + more == calls;
    } else {
      var one := calls + [more[0]];
      assert one[..|calls|] == calls;
      if |more| == 1 {
        assert calls + more == one;
      } else {
        assert (calls + more)[..|calls| + 1] == one;
      }
    }
  }

  lemma NotRegisteredBefore(entries: seq<Entry>, handle: Uint64)
    requires entries != [] && !Registered(entries, handle)
    ensures !Registered(entries[..|entries| - 1], handle) && entries[|entries| - 1].handle != handle
  {
    assert forall i :: 0 <= i < |entries| - 1 ==> entries[..|entries| - 1][i] == entries[i];
  }

  lemma {:induction false} WithoutKeeps(entries: seq<Entry>, handle: Uint64)
    requires Distinct(entries)
    ensures var rest := Without(entries, handle);
      && Distinct(rest) && !Registered(rest, handle)
      && (forall e :: e in rest <==> e in entries && e.handle != handle)
  {
    if entries != [] {
      if entries[0].handle == handle {
        assert forall e :: e in entries <==> e == entries[0] || e in entries[1..];
      } else {
        WithoutKeeps(entries[1..], handle);
        assert forall e :: e in entries <==> e == entries[0] || e in entries[1..];
        assert forall i :: 0 < i < |entries| ==> entries[i].handle != entries[0].handle;
        PutBack(entries[0], Without(entries[1..], handle), handle);
      }
    }
  }

  lemma PutBack(first: Entry, rest: seq<Entry>, handle: Uint64)
    requires Distinct(rest) && !Registered(rest, handle) && first.handle != handle
    requires forall e :: e in rest ==> e.handle != first.handle
    ensures Distinct([first] + rest) && !Registered([first] + rest, handle)
    ensures forall e :: e in [first] + rest <==> e == first || e in rest
  {
    var all := [first] + rest;
    assert forall i :: 0 < i < |all| ==> all[i] == rest[i - 1];
  }

  lemma RegisterKeeps(w: Watch, issued: nat, budget: Uint32, complete: bool)
    requires Consistent(w, issued) && issued + 1 < TWO_64
    ensures var (later, handle) := Register(w, budget, complete);
      && Consistent(later, if budget != 0 && complete then issued + 1 else issued)
      && (handle != 0 <==> budget != 0 && complete)
      && (handle != 0 ==> !Mentions(w.log, handle) && !Registered(w.entries, handle))
  {
    hide HistoryOf, SameFor, Orderly, Answered, Over, Mentions, Faithful;
    var (later, handle) := Register(w, budget, complete);
    if budget != 0 && complete {
      var began := Began(handle, budget);
      AppendOne(w.log, began);
      FreshHandle(w, issued, budget);
      OrderlyAppend(w.log, began);
      NoSampleNoCondemning(w.log, began);
      forall i | 0 <= i < |w.entries| ensures Faithful(w.entries[i], later.log) {
        FaithfulTransfer(w.entries[i], w.log, later.log);
      }
      StaysUnmentioned(w.log, began, issued + 1);
    }
  }

  lemma StaysUnmentioned(log: seq<Event>, e: Event, from: nat)
    requires e.handle <= from && forall h: Uint64 :: h > from ==> !Mentions(log, h)
    ensures forall h: Uint64 :: h > from ==> !Mentions(log + [e], h)
  {
    hide HistoryOf, Over;
    AppendOne(log, e);
    forall h: Uint64 | h > from ensures !Mentions(log + [e], h) {
      assert SameFor(log, log + [e], h);
    }
  }

  lemma {:induction false} NoHistory(log: seq<Event>, handle: Uint64)
    requires !Mentions(log, handle)
    ensures HistoryOf(log, handle) == []
  {
    if log != [] {
      var before := log[..|log| - 1];
      assert forall i :: 0 <= i < |before| ==> before[i] == log[i];
      assert log[|log| - 1].handle != handle;
      NoHistory(before, handle);
    }
  }

  /** A handle not mentioned yet: nothing is known, and nothing over, about it. */
  lemma FreshHandle(w: Watch, issued: nat, budget: Uint32)
    requires Consistent(w, issued) && issued + 1 < TWO_64
    ensures !Over(w.log, w.nextHandle) && !Mentions(w.log, w.nextHandle) && w.nextHandle == issued + 1
    ensures Faithful(Entry(w.nextHandle, budget, [], false), w.log + [Began(w.nextHandle, budget)])
  {
    hide HistoryOf, Orderly, Answered;
    NoHistory(w.log, w.nextHandle);
    AppendOne(w.log, Began(w.nextHandle, budget));
  }

  lemma UnregisterKeeps(w: Watch, issued: nat, handle: Uint64)
    requires Consistent(w, issued)
    ensures Consistent(Unregister(w, handle), issued) && !Registered(Unregister(w, handle).entries, handle)
  {
    hide HistoryOf, SameFor, Orderly, Answered, Over, Faithful, Mentions;
    if handle != 0 && Registered(w.entries, handle) {
      var later := Unregister(w, handle);
      WithoutKeeps(w.entries, handle);
      AppendOne(w.log, Ended(handle));
      OrderlyAppend(w.log, Ended(handle));
      NoSampleNoCondemning(w.log, Ended(handle));
      forall i | 0 <= i < |later.entries|
        ensures Faithful(later.entries[i], later.log) && later.entries[i].handle <= issued
      {
        var e := later.entries[i];
        assert e in w.entries && e.handle != handle;
        var k :| 0 <= k < |w.entries| && w.entries[k] == e;
        FaithfulTransfer(e, w.log, later.log);
      }
      StaysUnmentioned(w.log, Ended(handle), issued);
    } else if handle == 0 {
      NoZeroEntry(w, issued);
    }
  }

  lemma NoZeroEntry(w: Watch, issued: nat)
    requires Consistent(w, issued)
    ensures !Registered(w.entries, 0)
  {
  }

  lemma PollStepKeeps(w: Watch, issued: nat, now: Uint64, reports: Uint64 -> Report)
    requires Consistent(w, issued)
    ensures Consistent(Apply(w, DoPoll(now, reports)), issued)
  {
    hide HistoryOf, Orderly, Answered, Over, Faithful, Poll, Mentions;
    PollKeeps(w.entries, reports, now, w.log);
    var later := Apply(w, DoPoll(now, reports));
    forall h: Uint64 | h > issued ensures !Mentions(later.log, h) {
      assert !Registered(w.entries, h);
      assert SameFor(w.log, later.log, h);
    }
  }

  // ---- every run ----------------------------------------------------------------------------

  /** The step makes a registration. */
  predicate Issues(step: Step) {
    step.DoRegister? && step.budget != 0 && step.complete
  }

  function Registrations(steps: seq<Step>): nat {
    if steps == [] then 0 else (if Issues(steps[0]) then 1 else 0) + Registrations(steps[1..])
  }

  /** Over any interleaving of registrations, polls and unregistrations, as long as the 64-bit counter
      has handles left: the log stays orderly, every condemning sample is answered, and every entry is
      what its own samples make of it. */
  lemma {:induction false} RunKeepsOrder(w: Watch, issued: nat, steps: seq<Step>)
    requires Consistent(w, issued) && issued + Registrations(steps) < TWO_64
    ensures Consistent(Run(w, steps), issued + Registrations(steps))
    decreases |steps|
  {
    hide Consistent;
    if steps != [] {
      StepKeeps(w, issued, steps[0]);
      RunKeepsOrder(Apply(w, steps[0]), if Issues(steps[0]) then issued + 1 else issued, steps[1..]);
    }
  }

  lemma StepKeeps(w: Watch, issued: nat, step: Step)
    requires Consistent(w, issued) && (Issues(step) ==> issued + 1 < TWO_64)
    ensures Consistent(Apply(w, step), if Issues(step) then issued + 1 else issued)
  {
    hide Consistent, Poll;
    match step
    case DoRegister(budget, complete) =>
      if Issues(step) {
        RegisterKeeps(w, issued, budget, complete);
      }
    case DoPoll(now, reports) => PollStepKeeps(w, issued, now, reports);
    case DoUnregister(handle) => UnregisterKeeps(w, issued, handle);
  }

  lemma FreshIsConsistent()
    ensures Consistent(FRESH, 0)
  {
  }

  /** What a client can rely on: handles are non-zero and handed out once; each registration is reported
      hung at most once, never called again after that, after its sampler answered false, or after it
      was unregistered; every report names a submission that this registration's own samples saw running
      without a break for at least its budget, and every sample that shows one is answered by a report. */
  ghost predicate Reliable(log: seq<Event>) {
    && (forall i :: 0 <= i < |log| && log[i].Began? ==> log[i].handle != 0)
    && (forall i, j :: 0 <= i < j < |log| && log[i].Began? && log[j].Began? ==> log[i].handle != log[j].handle)
    && (forall i, j :: 0 <= i < j < |log| && log[i].Hung? && log[j].Hung? ==> log[i].handle != log[j].handle)
    && (forall i, j :: 0 <= i < j < |log| && Final(log[i]) && (log[j].Sampled? || log[j].Hung?) ==>
          log[i].handle != log[j].handle)
    && (forall j :: 0 <= j < |log| && log[j].Hung? ==> TrueHang(log[..j], log[j]))
    && Answered(log)
  }

  /** THE WATCH, from fresh: all of it holds over a run if and only if the run makes fewer registrations
      than the 64-bit counter has values. */
  lemma {:induction false} WatchRunLaws(steps: seq<Step>)
    ensures Reliable(Run(FRESH, steps).log) <==> Registrations(steps) < TWO_64
  {
    hide Consistent, Run, Reliable;
    FreshIsConsistent();
    if Registrations(steps) < TWO_64 {
      RunKeepsOrder(FRESH, 0, steps);
      ConsistentIsReliable(Run(FRESH, steps), Registrations(steps));
    } else {
      CounterWraps(FRESH, 0, steps);
      ZeroIsUnreliable(Run(FRESH, steps).log);
    }
  }

  lemma ConsistentIsReliable(w: Watch, issued: nat)
    requires Consistent(w, issued)
    ensures Reliable(w.log)
  {
    hide Justifies, TrueHang, Answered, Faithful;
    var log := w.log;
    forall j | 0 <= j < |log| && log[j].Hung? ensures TrueHang(log[..j], log[j]) {
      JustifiedIsTrue(log[..j], log[j]);
    }
  }

  /** The counter comes round to 0, and the next registration gets it. */
  lemma {:induction false} CounterWraps(w: Watch, issued: nat, steps: seq<Step>)
    requires w.nextHandle == (issued + 1) % TWO_64 && issued < TWO_64 <= issued + Registrations(steps)
    ensures exists budget: Uint32 :: Began(0, budget) in Run(w, steps).log
    decreases |steps|
  {
    hide Poll, Without;
    var step := steps[0];
    var next := Apply(w, step);
    if Issues(step) && issued + 1 == TWO_64 {
      assert Began(0, step.budget) in next.log;
      LogGrows(next, steps[1..], Began(0, step.budget));
    } else {
      CounterWraps(next, if Issues(step) then issued + 1 else issued, steps[1..]);
    }
  }

  lemma {:induction false} LogGrows(w: Watch, steps: seq<Step>, e: Event)
    requires e in w.log
    ensures e in Run(w, steps).log
    decreases |steps|
  {
    hide Poll, Without;
    if steps != [] {
      LogGrows(Apply(w, steps[0]), steps[1..], e);
    }
  }

  lemma ZeroIsUnreliable(log: seq<Event>)
    requires exists budget: Uint32 :: Began(0, budget) in log
    ensures !Reliable(log)
  {
  }

  ghost predicate TrueHang(log: seq<Event>, hung: Event)
    requires hung.Hung?
  {
    var history := HistoryOf(log, hung.handle);
    history != [] &&
    exists budget: Uint32, first: nat :: Began(hung.handle, budget) in log && budget != 0 &&
      StreakFrom(history, first, hung.submission) &&
      hung.runningMs == Elapsed(history[|history| - 1].nowMs, history[first].nowMs) >= budget
  }

  lemma JustifiedIsTrue(log: seq<Event>, hung: Event)
    requires hung.Hung? && Justifies(log, hung)
    ensures TrueHang(log, hung)
  {
    var history := HistoryOf(log, hung.handle);
    var last := history[|history| - 1].nowMs;
    var budget: Uint32 :| Began(hung.handle, budget) in log && hung.submission == Named(budget, history) &&
      hung.runningMs == RunningMs(After(history), hung.submission, last);
    DetectionIsExact(budget, history);
    var first: nat :| StreakFrom(history, first, hung.submission) && Elapsed(last, history[first].nowMs) >= budget;
    RunningMsIsTheStreak(history, first, hung.submission, last);
  }
}
