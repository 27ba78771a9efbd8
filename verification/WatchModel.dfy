/** The process-wide watch of MG_Backend/GpuHangWatch as a state machine over register, poll and
  unregister steps. Every step runs under the watch's lock, so any interleaving of the threads is a
  sequence of steps. What the samplers report is a parameter of a poll; the calls a poll makes into
  the registrations, and the registrations' own beginnings and ends, are logged in order. */
module WatchModel {
  import opened Wrappers
  import opened HangModel

  /** What a registration's sampler reports: its device is gone, or the progress it sees. */
  datatype Report = Gone | Progress(submissions: seq<Submission>)

  datatype Entry = Entry(handle: Uint64, budget: Uint32, running: seq<Running>, done: bool)

  datatype Event =
    | Began(handle: Uint64, budget: Uint32)
    | Sampled(handle: Uint64, nowMs: Uint64, report: Report)
    | Hung(handle: Uint64, submission: Uint64, runningMs: Uint64)
    | Ended(handle: Uint64)

  datatype Watch = Watch(entries: seq<Entry>, nextHandle: Uint64, log: seq<Event>)

  const FRESH := Watch([], 1, [])

  // ---- the steps ----------------------------------------------------------------------------

  /** The answer is the handle, 0 when nothing was registered. The counter wraps as a 64-bit one. */
  function Register(w: Watch, budget: Uint32, complete: bool): (Watch, Uint64) {
    if budget == 0 || !complete then (w, 0)
    else
      (Watch(w.entries + [Entry(w.nextHandle, budget, [], false)], (w.nextHandle + 1) % TWO_64,
             w.log + [Began(w.nextHandle, budget)]),
       w.nextHandle)
  }

  function PollEntry(e: Entry, report: Report, now: Uint64): (Entry, seq<Event>) {
    if e.done then (e, [])
    else match report
      case Gone => (e.(done := true), [Sampled(e.handle, now, report)])
      case Progress(submissions) =>
        var running := Advance(e.running, submissions, now);
        var named := FirstOverdue(e.budget, running, now);
        if named == 0 then (e.(running := running), [Sampled(e.handle, now, report)])
        else
          (e.(running := running, done := true),
           [Sampled(e.handle, now, report), Hung(e.handle, named, RunningMs(running, named, now))])
  }

  /** The entries in turn, each with its own report. */
  function Poll(entries: seq<Entry>, reports: Uint64 -> Report, now: Uint64): (seq<Entry>, seq<Event>) {
    if entries == [] then ([], [])
    else
      var last := |entries| - 1;
      var (before, calls) := Poll(entries[..last], reports, now);
      var (e, more) := PollEntry(entries[last], reports(entries[last].handle), now);
      (before + [e], calls + more)
  }

  /** The first entry with this handle goes. */
  function Without(entries: seq<Entry>, handle: Uint64): seq<Entry> {
    if entries == [] then []
    else if entries[0].handle == handle then entries[1..]
    else [entries[0]] + Without(entries[1..], handle)
  }

  predicate Registered(entries: seq<Entry>, handle: Uint64) {
    exists i :: 0 <= i < |entries| && entries[i].handle == handle
  }

  function Unregister(w: Watch, handle: Uint64): Watch {
    if handle == 0 || !Registered(w.entries, handle) then w
    else w.(entries := Without(w.entries, handle), log := w.log + [Ended(handle)])
  }

  datatype Step =
    | DoRegister(budget: Uint32, complete: bool)
    | DoPoll(nowMs: Uint64, reports: Uint64 -> Report)
    | DoUnregister(handle: Uint64)

  function Apply(w: Watch, step: Step): Watch {
    match step
    case DoRegister(budget, complete) => Register(w, budget, complete).0
    case DoPoll(now, reports) =>
      var (entries, calls) := Poll(w.entries, reports, now);
      w.(entries := entries, log := w.log + calls)
    case DoUnregister(handle) => Unregister(w, handle)
  }

  function Run(w: Watch, steps: seq<Step>): Watch
    decreases |steps|
  {
    if steps == [] then w else Run(Apply(w, steps[0]), steps[1..])
  }
}
