/** The decision of MG_Backend/GpuHangWatch: which in-flight submission, if any, has been seen
  running for too long. The detector keeps a compressed vector; here it is related to the whole
  history of the samples it was given. */
module HangModel {
  import opened Wrappers

  const TWO_64 := 0x1_0000_0000_0000_0000

  datatype Submission = Submission(id: Uint64, started: bool, finished: bool)

  datatype Running = Running(id: Uint64, sinceMs: Uint64)

  /** One look at every in-flight submission. */
  datatype Sample = Sample(submissions: seq<Submission>, nowMs: Uint64)

  predicate IsRunning(s: Submission) {
    s.started && !s.finished
  }

  /** Unsigned subtraction of two 64-bit times. */
  function Elapsed(now: Uint64, since: Uint64): (r: Uint64)
    ensures since <= now ==> r == now - since
    ensures now < since ==> r == 0x1_0000_0000_0000_0000 - (since - now)
  {
    (now - since) % TWO_64
  }

  // ---- one observation ----------------------------------------------------------------------

  /** The time recorded for `id`, or `now` when it was not seen running before. */
  function SinceIn(running: seq<Running>, id: Uint64, now: Uint64): Uint64 {
    if running == [] then now
    else if running[0].id == id then running[0].sinceMs
    else SinceIn(running[1..], id, now)
  }

  /** The vector after a sample: its running submissions, in the sample's order. */
  function Advance(running: seq<Running>, submissions: seq<Submission>, now: Uint64): seq<Running> {
    if submissions == [] then []
    else
      var last := |submissions| - 1;
      Advance(running, submissions[..last], now) +
      if IsRunning(submissions[last])
      then [Running(submissions[last].id, SinceIn(running, submissions[last].id, now))]
      else []
  }

  predicate IsOverdue(budget: Uint32, seen: Running, now: Uint64) {
    budget != 0 && Elapsed(now, seen.sinceMs) >= budget
  }

  /** The first overdue submission with an id, or 0. (An overdue submission whose id is 0 cannot be
      told from "none" and is passed over.) */
  function FirstOverdue(budget: Uint32, running: seq<Running>, now: Uint64): Uint64 {
    if running == [] then 0
    else
      var last := |running| - 1;
      var earlier := FirstOverdue(budget, running[..last], now);
      if earlier != 0 then earlier
      else if IsOverdue(budget, running[last], now) then running[last].id else 0
  }

  /** How long `id` has been seen running, 0 when it is not in the vector. */
  function RunningMs(running: seq<Running>, id: Uint64, now: Uint64): Uint64 {
    if running == [] then 0
    else if running[0].id == id then Elapsed(now, running[0].sinceMs)
    else RunningMs(running[1..], id, now)
  }

  // ---- the whole history --------------------------------------------------------------------

  predicate RunsIn(sample: Sample, id: Uint64) {
    exists i :: 0 <= i < |sample.submissions| && sample.submissions[i].id == id &&
                sample.submissions[i].started && !sample.submissions[i].finished
  }

  /** `id` has been running in every sample since number `first`, and was not before. */
  ghost predicate StreakFrom(history: seq<Sample>, first: nat, id: Uint64) {
    && first < |history|
    && (forall k :: first <= k < |history| ==> RunsIn(history[k], id))
    && (first > 0 ==> !RunsIn(history[first - 1], id))
  }

  lemma StreakIsUnique(history: seq<Sample>, i: nat, j: nat, id: Uint64)
    requires StreakFrom(history, i, id) && StreakFrom(history, j, id)
    ensures i == j
  {
    assert i > 0 ==> !RunsIn(history[i - 1], id);
    assert j > 0 ==> !RunsIn(history[j - 1], id);
  }

  /** The vector a fresh detector holds after a history. */
  function After(history: seq<Sample>): seq<Running> {
    if history == [] then []
    else
      var last := |history| - 1;
      Advance(After(history[..last]), history[last].submissions, history[last].nowMs)
  }

  /** Which entries `Advance` makes, and in what order. */
  lemma {:induction false} AdvanceEntries(running: seq<Running>, submissions: seq<Submission>, now: Uint64)
    ensures forall r :: r in Advance(running, submissions, now) <==>
      r.sinceMs == SinceIn(running, r.id, now) &&
      exists i :: 0 <= i < |submissions| && IsRunning(submissions[i]) && submissions[i].id == r.id
  {
    if submissions != [] {
      var last := |submissions| - 1;
      var shorter := submissions[..last];
      AdvanceEntries(running, shorter, now);
      forall r: Running
        ensures (exists i :: 0 <= i < |submissions| && IsRunning(submissions[i]) && submissions[i].id == r.id) <==>
          (exists i :: 0 <= i < |shorter| && IsRunning(shorter[i]) && shorter[i].id == r.id) ||
          (IsRunning(submissions[last]) && submissions[last].id == r.id)
      {
        if i :| 0 <= i < |submissions| && IsRunning(submissions[i]) && submissions[i].id == r.id && i != last {
          assert shorter[i] == submissions[i];
        }
      }
    }
  }

  lemma {:induction false} SinceInSound(running: seq<Running>, id: Uint64, now: Uint64)
    ensures (exists r :: r in running && r.id == id) ==> Running(id, SinceIn(running, id, now)) in running
    ensures !(exists r :: r in running && r.id == id) ==> SinceIn(running, id, now) == now
  {
    if running != [] && running[0].id != id {
      SinceInSound(running[1..], id, now);
      assert forall r :: r in running <==> r == running[0] || r in running[1..];
    }
  }

  /** THE REFINEMENT: after any history, the vector holds exactly the submissions running in the last
      sample, each with the time of the first sample of its unbroken running streak. */
  lemma {:induction false} VectorIsTheStreaks(history: seq<Sample>, id: Uint64, since: Uint64)
    ensures Running(id, since) in After(history) <==>
      exists first: nat :: StreakFrom(history, first, id) && history[first].nowMs == since
  {
    if history != [] {
      var last := |history| - 1;
      var before := history[..last];
      var now := history[last].nowMs;
      AdvanceEntries(After(before), history[last].submissions, now);
      assert Running(id, since) in After(history) <==>
        since == SinceIn(After(before), id, now) && RunsIn(history[last], id);
      SinceInSound(After(before), id, now);
      forall s: Uint64 { VectorIsTheStreaks(before, id, s); }
      StreakSteps(history, id);
      if RunsIn(history[last], id) {
        if first: nat :| StreakFrom(before, first, id) {
          assert Running(id, before[first].nowMs) in After(before);
          var s := SinceIn(After(before), id, now);
          assert Running(id, s) in After(before);
          var other: nat :| StreakFrom(before, other, id) && before[other].nowMs == s;
          StreakIsUnique(before, first, other, id);
          assert StreakFrom(history, first, id);
          forall f: nat | StreakFrom(history, f, id) ensures f == first { StreakIsUnique(history, f, first, id); }
        } else {
          assert StreakFrom(history, last, id);
          forall f: nat | StreakFrom(history, f, id) ensures f == last { StreakIsUnique(history, f, last, id); }
          assert forall r :: r in After(before) && r.id == id ==> r == Running(id, r.sinceMs);
        }
      }
    }
  }

  /** A streak either goes on from the history before the last sample or starts with it. */
  lemma StreakSteps(history: seq<Sample>, id: Uint64)
    requires history != []
    ensures var last := |history| - 1;
      && (forall first: nat :: StreakFrom(history[..last], first, id) && RunsIn(history[last], id) ==>
            StreakFrom(history, first, id))
      && (forall first: nat :: StreakFrom(history, first, id) ==>
            RunsIn(history[last], id) && (first == last || StreakFrom(history[..last], first, id)))
      && (RunsIn(history[last], id) && !(exists first: nat :: StreakFrom(history[..last], first, id)) ==>
            StreakFrom(history, last, id))
  {
    var last := |history| - 1;
    if RunsIn(history[last], id) && last > 0 && RunsIn(history[last - 1], id) {
      StreakExists(history[..last], id);
    }
  }

  lemma {:induction false} StreakExists(history: seq<Sample>, id: Uint64)
    requires history != [] && RunsIn(history[|history| - 1], id)
    ensures exists first: nat :: StreakFrom(history, first, id)
  {
    var last := |history| - 1;
    if last > 0 && RunsIn(history[last - 1], id) {
      StreakExists(history[..last], id);
      var first: nat :| StreakFrom(history[..last], first, id);
      assert StreakFrom(history, first, id);
    } else {
      assert StreakFrom(history, last, id);
    }
  }

  // ---- what Observe names -------------------------------------------------------------------

  lemma {:induction false} FirstOverdueExactly(budget: Uint32, running: seq<Running>, now: Uint64)
    ensures var named := FirstOverdue(budget, running, now);
      && (named != 0 ==>
            exists i :: 0 <= i < |running| && running[i].id == named && IsOverdue(budget, running[i], now) &&
                        (forall j :: 0 <= j < i ==> running[j].id == 0 || !IsOverdue(budget, running[j], now)))
      && (named == 0 ==> forall r :: r in running && r.id != 0 ==> !IsOverdue(budget, r, now))
  {
    if running != [] {
      var last := |running| - 1;
      var before := running[..last];
      FirstOverdueExactly(budget, before, now);
      var earlier := FirstOverdue(budget, before, now);
      assert forall k :: 0 <= k < last ==> before[k] == running[k];
      if earlier != 0 {
        var i :| 0 <= i < |before| && before[i].id == earlier && IsOverdue(budget, before[i], now) &&
          forall j :: 0 <= j < i ==> before[j].id == 0 || !IsOverdue(budget, before[j], now);
        assert running[i] == before[i];
      } else {
        assert forall j :: 0 <= j < last ==> before[j] in before;
        assert forall r :: r in running <==> r in before || r == running[last];
      }
    }
  }

  /** What a detector with this budget answers to the last sample of a history. */
  function Named(budget: Uint32, history: seq<Sample>): Uint64
    requires history != []
  {
    FirstOverdue(budget, After(history), history[|history| - 1].nowMs)
  }

  /** What it answered to sample number `k`. */
  function NamedAt(budget: Uint32, history: seq<Sample>, k: nat): Uint64
    requires k < |history|
  {
    Named(budget, history[..k + 1])
  }

  /** `id` is running, and its streak is at least a non-zero budget old. */
  ghost predicate StreakOverdue(budget: Uint32, history: seq<Sample>, id: Uint64)
    requires history != []
  {
    budget != 0 &&
    exists first: nat :: StreakFrom(history, first, id) &&
      Elapsed(history[|history| - 1].nowMs, history[first].nowMs) >= budget
  }

  /** A hang is named exactly when one is there to be named, and it is a true one. */
  lemma DetectionIsExact(budget: Uint32, history: seq<Sample>)
    requires history != []
    ensures Named(budget, history) != 0 ==> StreakOverdue(budget, history, Named(budget, history))
    ensures Named(budget, history) != 0 <==> exists id: Uint64 :: id != 0 && StreakOverdue(budget, history, id)
  {
    var now := history[|history| - 1].nowMs;
    var running := After(history);
    var named := Named(budget, history);
    FirstOverdueExactly(budget, running, now);
    if named != 0 {
      var i :| 0 <= i < |running| && running[i].id == named && IsOverdue(budget, running[i], now);
      assert running[i] == Running(named, running[i].sinceMs);
      VectorIsTheStreaks(history, named, running[i].sinceMs);
    } else {
      forall id: Uint64 | StreakOverdue(budget, history, id) ensures id == 0 {
        var first: nat :| StreakFrom(history, first, id) && Elapsed(now, history[first].nowMs) >= budget;
        VectorIsTheStreaks(history, id, history[first].nowMs);
        assert Running(id, history[first].nowMs) in running;
      }
    }
  }

  /** Submission `s` of this sample is overdue by what the vector kept before it says. */
  predicate OverdueBy(budget: Uint32, running: seq<Running>, s: Submission, now: Uint64) {
    IsRunning(s) && IsOverdue(budget, Running(s.id, SinceIn(running, s.id, now)), now)
  }

  /** The named submission is the first overdue one of the sample that has an id. */
  lemma {:induction false} FirstInSample(budget: Uint32, running: seq<Running>, submissions: seq<Submission>,
                                         now: Uint64)
    ensures var named := FirstOverdue(budget, Advance(running, submissions, now), now);
      && (named != 0 ==>
            exists i :: 0 <= i < |submissions| && OverdueBy(budget, running, submissions[i], now) &&
              submissions[i].id == named &&
              forall j :: 0 <= j < i && submissions[j].id != 0 ==> !OverdueBy(budget, running, submissions[j], now))
      && (named == 0 ==>
            forall i :: 0 <= i < |submissions| && submissions[i].id != 0 ==>
              !OverdueBy(budget, running, submissions[i], now))
  {
    hide OverdueBy, IsOverdue;
    if submissions != [] {
      var last := |submissions| - 1;
      var before := submissions[..last];
      FirstInSample(budget, running, before, now);
      assert forall i :: 0 <= i < last ==> before[i] == submissions[i];
      LastOfSample(budget, running, submissions, now);
      var earlier := FirstOverdue(budget, Advance(running, before, now), now);
      if earlier != 0 {
        var i :| 0 <= i < last && OverdueBy(budget, running, before[i], now) && before[i].id == earlier &&
          forall j :: 0 <= j < i && before[j].id != 0 ==> !OverdueBy(budget, running, before[j], now);
        assert OverdueBy(budget, running, submissions[i], now) && submissions[i].id == earlier;
      }
    }
  }

  lemma LastOfSample(budget: Uint32, running: seq<Running>, submissions: seq<Submission>, now: Uint64)
    requires submissions != []
    ensures var last := submissions[|submissions| - 1];
      var earlier := FirstOverdue(budget, Advance(running, submissions[..|submissions| - 1], now), now);
      FirstOverdue(budget, Advance(running, submissions, now), now) ==
        if earlier != 0 then earlier else if OverdueBy(budget, running, last, now) then last.id else 0
  {
    var n := |submissions| - 1;
    var before := Advance(running, submissions[..n], now);
    if IsRunning(submissions[n]) {
      var seen := Running(submissions[n].id, SinceIn(running, submissions[n].id, now));
      assert (before + [seen])[..|before|] == before;
    } else {
      assert before + [] == before;
    }
  }

  /** WHICH ONE: of several overdue submissions the answer names the first in the order of the last sample. */
  lemma {:induction false} FirstOverdueIsNamed(budget: Uint32, history: seq<Sample>)
    requires history != []
    ensures Named(budget, history) != 0 ==>
      var submissions := history[|history| - 1].submissions;
      exists i :: 0 <= i < |submissions| && submissions[i].id == Named(budget, history) &&
        submissions[i].started && !submissions[i].finished && StreakOverdue(budget, history, submissions[i].id) &&
        forall j :: 0 <= j < i && submissions[j].id != 0 && submissions[j].started && !submissions[j].finished ==>
          !StreakOverdue(budget, history, submissions[j].id)
  {
    hide Named, StreakOverdue;
    var last := |history| - 1;
    var submissions, now := history[last].submissions, history[last].nowMs;
    var before := After(history[..last]);
    forall i | 0 <= i < |submissions| && IsRunning(submissions[i])
      ensures OverdueBy(budget, before, submissions[i], now) <==> StreakOverdue(budget, history, submissions[i].id)
    {
      OverdueIsStreak(budget, history, i);
    }
    NamedInSample(budget, history);
  }

  lemma NamedInSample(budget: Uint32, history: seq<Sample>)
    requires history != []
    ensures var last := history[|history| - 1];
      var before := After(history[..|history| - 1]);
      Named(budget, history) != 0 ==>
        exists i :: 0 <= i < |last.submissions| && OverdueBy(budget, before, last.submissions[i], last.nowMs) &&
          last.submissions[i].id == Named(budget, history) &&
          forall j :: 0 <= j < i && last.submissions[j].id != 0 ==>
            !OverdueBy(budget, before, last.submissions[j], last.nowMs)
  {
    hide OverdueBy, Advance, FirstOverdue;
    var last := history[|history| - 1];
    FirstInSample(budget, After(history[..|history| - 1]), last.submissions, last.nowMs);
  }

  lemma OverdueIsStreak(budget: Uint32, history: seq<Sample>, i: nat)
    requires history != [] && i < |history[|history| - 1].submissions|
    requires IsRunning(history[|history| - 1].submissions[i])
    ensures var last := history[|history| - 1];
      OverdueBy(budget, After(history[..|history| - 1]), last.submissions[i], last.nowMs) <==>
      StreakOverdue(budget, history, last.submissions[i].id)
  {
    hide Advance;
    var last := history[|history| - 1];
    var before := After(history[..|history| - 1]);
    var id := last.submissions[i].id;
    var since := SinceIn(before, id, last.nowMs);
    AdvanceEntries(before, last.submissions, last.nowMs);
    assert Running(id, since) in After(history);
    VectorIsTheStreaks(history, id, since);
    var first: nat :| StreakFrom(history, first, id) && history[first].nowMs == since;
    forall other: nat | StreakFrom(history, other, id) ensures other == first {
      StreakIsUnique(history, other, first, id);
    }
  }

  lemma {:induction false} RunningMsExactly(running: seq<Running>, id: Uint64, now: Uint64)
    ensures (exists r :: r in running && r.id == id) ==>
      exists r :: r in running && r.id == id && RunningMs(running, id, now) == Elapsed(now, r.sinceMs)
    ensures !(exists r :: r in running && r.id == id) ==> RunningMs(running, id, now) == 0
  {
    if running != [] {
      assert running[0] in running;
      if running[0].id != id {
        RunningMsExactly(running[1..], id, now);
        assert forall r :: r in running <==> r == running[0] || r in running[1..];
      }
    }
  }

  /** The reported running time of a running submission is the age of its streak. */
  lemma RunningMsIsTheStreak(history: seq<Sample>, first: nat, id: Uint64, now: Uint64)
    requires StreakFrom(history, first, id)
    ensures RunningMs(After(history), id, now) == Elapsed(now, history[first].nowMs)
  {
    VectorIsTheStreaks(history, id, history[first].nowMs);
    assert Running(id, history[first].nowMs) in After(history);
    RunningMsExactly(After(history), id, now);
    var r :| r in After(history) && r.id == id && RunningMs(After(history), id, now) == Elapsed(now, r.sinceMs);
    assert r == Running(id, r.sinceMs);
    VectorIsTheStreaks(history, id, r.sinceMs);
    var f: nat :| StreakFrom(history, f, id) && history[f].nowMs == r.sinceMs;
    StreakIsUnique(history, first, f, id);
  }

  // ---- when a hang is named -----------------------------------------------------------------

  predicate Monotone(history: seq<Sample>) {
    forall i, j :: 0 <= i <= j < |history| ==> history[i].nowMs <= history[j].nowMs
  }

  /** Consecutive samples are at most `interval` apart. */
  predicate SampledEvery(history: seq<Sample>, interval: nat) {
    forall i :: 0 < i < |history| ==> history[i].nowMs - history[i - 1].nowMs <= interval
  }

  /** Only `id` runs, as on a ring that runs one submission at a time. */
  predicate RunsAlone(sample: Sample, id: Uint64) {
    forall other: Uint64 :: RunsIn(sample, other) ==> other == id
  }

  /** A submission that starts at sample `first`, never ends and runs alone is named, and by that
      sample on: no earlier than the budget and within one interval of it. `at` is the sample that
      names it. */
  lemma HangIsNamedInTime(budget: Uint32, history: seq<Sample>, first: nat, id: Uint64, interval: nat)
    returns (at: nat)
    requires budget != 0 && id != 0 && StreakFrom(history, first, id)
    requires Monotone(history) && SampledEvery(history, interval)
    requires forall k :: first <= k < |history| ==> RunsAlone(history[k], id)
    requires history[|history| - 1].nowMs >= history[first].nowMs + budget
    ensures first < at < |history|
    ensures NamedAt(budget, history, at) == id
    ensures forall k :: first <= k < at ==> NamedAt(budget, history, k) == 0
    ensures budget <= history[at].nowMs - history[first].nowMs < budget + interval
    ensures RunningMs(After(history[..at + 1]), id, history[at].nowMs) == history[at].nowMs - history[first].nowMs
  {
    at := first;
    while history[at].nowMs < history[first].nowMs + budget
      invariant first <= at < |history|
      invariant forall k :: first <= k < at ==> history[k].nowMs < history[first].nowMs + budget
      invariant forall k :: first <= k < at ==> NamedAt(budget, history, k) == 0
      decreases |history| - at
    {
      NamedWhenAlone(budget, history, first, at, id);
      at := at + 1;
    }
    NamedWhenAlone(budget, history, first, at, id);
    RunningMsIsTheStreak(history[..at + 1], first, id, history[at].nowMs);
  }

  lemma NamedWhenAlone(budget: Uint32, history: seq<Sample>, first: nat, at: nat, id: Uint64)
    requires budget != 0 && id != 0 && StreakFrom(history, first, id) && Monotone(history)
    requires first <= at < |history| && RunsAlone(history[at], id)
    ensures StreakFrom(history[..at + 1], first, id)
    ensures NamedAt(budget, history, at) ==
            if history[at].nowMs - history[first].nowMs >= budget then id else 0
  {
    var seen := history[..at + 1];
    assert StreakFrom(seen, first, id);
    DetectionIsExact(budget, seen);
    var named := Named(budget, seen);
    forall other: Uint64 | StreakOverdue(budget, seen, other)
      ensures other == id && history[at].nowMs - history[first].nowMs >= budget
    {
      var f: nat :| StreakFrom(seen, f, other) && Elapsed(seen[at].nowMs, seen[f].nowMs) >= budget;
      assert RunsIn(seen[at], other);
      StreakIsUnique(seen, first, f, id);
    }
    if history[at].nowMs - history[first].nowMs >= budget {
      assert StreakOverdue(budget, seen, id);
    }
  }
}
