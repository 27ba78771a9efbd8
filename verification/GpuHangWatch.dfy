/** The detector and the watch of MG_Backend/GpuHangWatch as they are written: vectors and flags
  updated in place. Each method is proved against its step of `HangModel` or `WatchModel`. */
module GpuHangWatchObjects {
  import opened Wrappers
  import M = HangModel
  import W = WatchModel

  class Detector {
    const budgetMs: Uint32
    var running: seq<M.Running>

    constructor (budget: Uint32)
      ensures budgetMs == budget && running == []
    {
      budgetMs := budget;
      running := [];
    }

    method Observe(sample: seq<M.Submission>, nowMs: Uint64) returns (named: Uint64)
      modifies this
      ensures running == M.Advance(old(running), sample, nowMs)
      ensures named == M.FirstOverdue(budgetMs, running, nowMs)
    {
      var still: seq<M.Running> := [];
      named := 0;
      for i := 0 to |sample|
        invariant running == old(running)
        invariant still == M.Advance(running, sample[..i], nowMs)
        invariant named == M.FirstOverdue(budgetMs, still, nowMs)
      {
        assert sample[..i + 1][..i] == sample[..i];
        var progress := sample[i];
        if !progress.started || progress.finished {
          assert M.Advance(running, sample[..i + 1], nowMs) == M.Advance(running, sample[..i], nowMs) + [];
          continue;
        }
        var since := RecordedSince(progress.id, nowMs);
        var seen := M.Running(progress.id, since);
        assert (still + [seen])[..|still|] == still;
        still := still + [seen];
        if named == 0 && budgetMs != 0 && M.Elapsed(nowMs, since) >= budgetMs {
          named := progress.id;
        }
      }
      assert sample[..|sample|] == sample;
      running := still;
    }

    /** The time kept for `id`, or `nowMs` when it was not running before. */
    method RecordedSince(id: Uint64, nowMs: Uint64) returns (since: Uint64)
      ensures since == M.SinceIn(running, id, nowMs)
    {
      since := nowMs;
      for k := 0 to |running|
        invariant since == nowMs
        invariant M.SinceIn(running, id, nowMs) == M.SinceIn(running[k..], id, nowMs)
      {
        if running[k].id == id {
          since := running[k].sinceMs;
          break;
        }
        assert running[k..][1..] == running[k + 1..];
      }
    }

    method RunningMs(id: Uint64, nowMs: Uint64) returns (ms: Uint64)
      ensures ms == M.RunningMs(running, id, nowMs)
    {
      for k := 0 to |running|
        invariant M.RunningMs(running, id, nowMs) == M.RunningMs(running[k..], id, nowMs)
      {
        if running[k].id == id {
          return M.Elapsed(nowMs, running[k].sinceMs);
        }
        assert running[k..][1..] == running[k + 1..];
      }
      return 0;
    }
  }

  datatype Entry = Entry(handle: Uint64, decide: Detector, done: bool)

  class GpuHangWatch {
    var entries: seq<Entry>
    var nextHandle: Uint64
    // What the registrations were told and called with, oldest first.
    var log: seq<W.Event>

    /** Every entry owns its detector. */
    ghost predicate Valid()
      reads this
    {
      forall i, j :: 0 <= i < j < |entries| ==> entries[i].decide != entries[j].decide
    }

    ghost function Detectors(): set<object>
      reads this
    {
      set e | e in entries :: e.decide
    }

    static ghost function ModelOf(e: Entry): W.Entry
      reads e.decide
    {
      W.Entry(e.handle, e.decide.budgetMs, e.decide.running, e.done)
    }

    ghost function State(): W.Watch
      reads this, Detectors()
    {
      W.Watch(seq(|entries|, i requires 0 <= i < |entries| reads this, Detectors() => ModelOf(entries[i])),
              nextHandle, log)
    }

    constructor ()
      ensures Valid() && State() == W.FRESH
    {
      entries := [];
      nextHandle := 1;
      log := [];
    }

    method Register(budget: Uint32, hasSampler: bool, hasCallback: bool) returns (handle: Uint64)
      requires Valid()
      modifies this
      ensures Valid()
      ensures (State(), handle) == W.Register(old(State()), budget, hasSampler && hasCallback)
    {
      if budget == 0 || !hasSampler || !hasCallback {
        return 0;
      }
      var decide := new Detector(budget);
      handle := nextHandle;
      nextHandle := (nextHandle + 1) % M.TWO_64;
      log := log + [W.Began(handle, budget)];
      entries := entries + [Entry(handle, decide, false)];
      assert State().entries == old(State()).entries + [W.Entry(handle, budget, [], false)];
    }

    /** One pass of the watch thread: each live entry is sampled once, in order. */
    method PollOnce(nowMs: Uint64, reports: Uint64 -> W.Report)
      requires Valid()
      modifies this, Detectors()
      ensures Valid() && Detectors() == old(Detectors())
      ensures State() == W.Apply(old(State()), W.DoPoll(nowMs, reports))
    {
      hide W.PollEntry, W.Poll;
      ghost var models := State().entries;
      PollStarts(models, reports, nowMs);
      for k := 0 to |entries|
        invariant |entries| == |models| && nextHandle == old(nextHandle)
        invariant forall i :: 0 <= i < |entries| ==> entries[i].decide == old(entries)[i].decide
        invariant |W.Poll(models[..k], reports, nowMs).0| == k
        invariant forall i :: 0 <= i < k ==> ModelOf(entries[i]) == W.Poll(models[..k], reports, nowMs).0[i]
        invariant forall i :: k <= i < |entries| ==> entries[i] == old(entries)[i] && ModelOf(entries[i]) == models[i]
        invariant log == old(log) + W.Poll(models[..k], reports, nowMs).1
      {
        ghost var calls := W.Poll(models[..k], reports, nowMs).1;
        PollUnfolds(models, k, reports, nowMs);
        PollAt(k, nowMs, reports(entries[k].handle));
        assert log == old(log) + (calls + W.PollEntry(models[k], reports(models[k].handle), nowMs).1);
      }
      assert models[..|entries|] == models;
      assert State().entries == W.Poll(models, reports, nowMs).0;
    }

    /** One turn of the pass. */
    method PollAt(k: nat, nowMs: Uint64, report: W.Report)
      requires Valid() && k < |entries|
      modifies this, entries[k].decide
      ensures |entries| == |old(entries)| && nextHandle == old(nextHandle)
      ensures forall i :: 0 <= i < |entries| ==> entries[i].decide == old(entries)[i].decide
      ensures forall i :: 0 <= i < |entries| && i != k ==> entries[i] == old(entries)[i]
      ensures (ModelOf(entries[k]), log) ==
        var (polled, calls) := W.PollEntry(old(ModelOf(entries[k])), report, nowMs);
        (polled, old(log) + calls)
    {
      var entry := entries[k];
      if entry.done {
        assert log + [] == log;
        return;
      }
      log := log + [W.Sampled(entry.handle, nowMs, report)];
      if report.Gone? {
        entries := entries[k := entry.(done := true)];
        return;
      }
      var hung := entry.decide.Observe(report.submissions, nowMs);
      if hung == 0 {
        return;
      }
      entries := entries[k := entry.(done := true)];
      var ms := entry.decide.RunningMs(hung, nowMs);
      log := log + [W.Hung(entry.handle, hung, ms)];
      assert log == old(log) + [W.Sampled(entry.handle, nowMs, report), W.Hung(entry.handle, hung, ms)];
    }

    method Unregister(handle: Uint64)
      requires Valid()
      modifies this
      ensures Valid()
      ensures State() == W.Unregister(old(State()), handle)
    {
      hide W.Without;
      if handle == 0 {
        return;
      }
      ghost var models := State().entries;
      for i := 0 to |entries|
        invariant entries == old(entries) && log == old(log) && nextHandle == old(nextHandle)
        invariant forall j :: 0 <= j < i ==> entries[j].handle != handle
      {
        if entries[i].handle == handle {
          WithoutFirst(models, handle, i);
          assert models[i].handle == handle;
          entries := entries[..i] + entries[i + 1..];
          log := log + [W.Ended(handle)];
          assert State().entries == models[..i] + models[i + 1..];
          return;
        }
      }
    }
  }

  lemma PollStarts(models: seq<W.Entry>, reports: Uint64 -> W.Report, nowMs: Uint64)
    ensures W.Poll(models[..0], reports, nowMs) == ([], [])
  {
  }

  lemma PollUnfolds(models: seq<W.Entry>, k: nat, reports: Uint64 -> W.Report, nowMs: Uint64)
    requires k < |models|
    ensures W.Poll(models[..k + 1], reports, nowMs) ==
            (W.Poll(models[..k], reports, nowMs).0 + [W.PollEntry(models[k], reports(models[k].handle), nowMs).0],
             W.Poll(models[..k], reports, nowMs).1 + W.PollEntry(models[k], reports(models[k].handle), nowMs).1)
  {
    hide W.PollEntry;
    assert models[..k + 1][..k] == models[..k];
  }

  lemma {:induction false} WithoutFirst(models: seq<W.Entry>, handle: Uint64, i: nat)
    requires i < |models| && models[i].handle == handle
    requires forall j :: 0 <= j < i ==> models[j].handle != handle
    ensures W.Without(models, handle) == models[..i] + models[i + 1..]
  {
    if i > 0 {
      WithoutFirst(models[1..], handle, i - 1);
    }
  }
}
