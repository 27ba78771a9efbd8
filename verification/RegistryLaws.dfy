/** The laws of whole runs of the surface registry, each over every interleaving of every thread's
  operations. */
module RegistryLaws {
  import opened RegistryModel
  import opened RegistryInvariants
  import opened RegistryRuns

  // ---- every current surface is registered: exactly when ------------------------------------

  /** The caller makes current, once more, a surface that is waiting for its last holder - itself -
      to let go. The bind is accepted, and letting go of the old binding destroys the surface the
      new one names. */
  ghost predicate Dangles(r: Registry, step: Step) {
    Binds(r, step) && DiesWith(r, step.thread, step.op.draw)
  }

  lemma StepKeepsWellBoundExactly(r: Registry, step: Step)
    requires Consistent(r) && WellBound(r)
    ensures WellBound(Apply(r, step).state) <==> !Dangles(r, step)
  {
    hide Told, BindAccepted, Apply;
    StepAccount(r, step);
    var later := Apply(r, step).state;
    if Binds(r, step) {
      BoundDisplay(r, step);
    }
    if Dangles(r, step) {
      assert later.currentThreads[step.thread].draw !in later.surfaces;
    }
  }

  ghost predicate NeverDangles(r: Registry, steps: seq<Step>)
    decreases |steps|
  {
    steps == [] || (!Dangles(r, steps[0]) && NeverDangles(Apply(r, steps[0]).state, steps[1..]))
  }

  /** Every state a run goes through is well bound. */
  ghost predicate AlwaysWellBound(r: Registry, steps: seq<Step>)
    decreases |steps|
  {
    WellBound(r) && (steps == [] || AlwaysWellBound(Apply(r, steps[0]).state, steps[1..]))
  }

  /** In every run, every thread's current surface stays registered if and only if no step of the
      run rebinds a surface it is the last holder of while that surface awaits destruction. */
  lemma {:induction false} RunIsWellBoundExactly(r: Registry, steps: seq<Step>)
    requires Consistent(r) && WellBound(r)
    ensures AlwaysWellBound(r, steps) <==> NeverDangles(r, steps)
    decreases |steps|
  {
    hide Told, BindAccepted, Apply, Consistent, WellBound;
    if steps != [] {
      StepKeepsConsistent(r, steps[0]);
      StepKeepsWellBoundExactly(r, steps[0]);
      if !Dangles(r, steps[0]) {
        RunIsWellBoundExactly(Apply(r, steps[0]).state, steps[1..]);
      } else {
        assert !AlwaysWellBound(Apply(r, steps[0]).state, steps[1..]);
      }
    }
  }

  // ---- a pending surface is held: exactly when ----------------------------------------------

  ghost predicate AnyPending(r: Registry) {
    exists s :: s in r.surfaces && r.surfaces[s].destroyPending
  }

  /** Only a bare reset leaves a pending surface with no holder, and it does so whenever there is one. */
  lemma {:induction false} StepKeepsPendingHeldExactly(r: Registry, step: Step)
    requires Consistent(r) && PendingHeld(r)
    ensures PendingHeld(Apply(r, step).state) <==> !(step.op.DoResetRuntime? && AnyPending(r))
  {
    hide Told, BindAccepted, Apply;
    StepAccount(r, step);
    var later := Apply(r, step).state;
    if step.op.DoResetRuntime? && AnyPending(r) {
      var s :| s in r.surfaces && r.surfaces[s].destroyPending;
      assert s in later.surfaces && later.surfaces[s].destroyPending && !IsCurrent(later, s);
    } else {
      forall s | s in later.surfaces && later.surfaces[s].destroyPending ensures IsCurrent(later, s) {
        StillHeld(r, step, s);
      }
    }
  }

  lemma StillHeld(r: Registry, step: Step, s: Surface)
    requires Consistent(r) && PendingHeld(r) && !step.op.DoResetRuntime?
    requires s in Apply(r, step).state.surfaces && Apply(r, step).state.surfaces[s].destroyPending
    ensures IsCurrent(Apply(r, step).state, s)
  {
    hide Told, BindAccepted, Apply;
    StepAccount(r, step);
    var later := Apply(r, step).state;
    assert IsCurrent(r, s);
    var t :| t in r.currentThreads && r.currentThreads[t].draw == s;
    if t == step.thread && Unbinds(r, step) {
      assert !DiesWith(r, t, s);
      var other :| other in r.currentThreads && other != t && r.currentThreads[other].draw == s;
      assert other in later.currentThreads && later.currentThreads[other].draw == s;
    } else {
      assert t in later.currentThreads && later.currentThreads[t].draw == s;
    }
  }

  ghost predicate NeverResetsPending(r: Registry, steps: seq<Step>)
    decreases |steps|
  {
    steps == [] || (!(steps[0].op.DoResetRuntime? && AnyPending(r)) &&
                    NeverResetsPending(Apply(r, steps[0]).state, steps[1..]))
  }

  ghost predicate AlwaysPendingHeld(r: Registry, steps: seq<Step>)
    decreases |steps|
  {
    PendingHeld(r) && (steps == [] || AlwaysPendingHeld(Apply(r, steps[0]).state, steps[1..]))
  }

  /** In every run, a pending surface is always current somewhere if and only if no bare reset of the
      run meets a pending surface. */
  lemma {:induction false} RunHoldsPendingExactly(r: Registry, steps: seq<Step>)
    requires Consistent(r) && PendingHeld(r)
    ensures AlwaysPendingHeld(r, steps) <==> NeverResetsPending(r, steps)
    decreases |steps|
  {
    hide Told, BindAccepted, Apply, Consistent, PendingHeld, AnyPending;
    if steps != [] {
      var next := Apply(r, steps[0]).state;
      StepKeepsConsistent(r, steps[0]);
      StepKeepsPendingHeldExactly(r, steps[0]);
      if PendingHeld(next) {
        RunHoldsPendingExactly(next, steps[1..]);
      } else {
        assert !AlwaysPendingHeld(next, steps[1..]);
      }
    }
  }

  // ---- conservation -------------------------------------------------------------------------

  predicate FreshlyRegisters(r: Registry, step: Step, s: Surface) {
    s in Registers(r, step) && s !in r.surfaces
  }

  /** Registrations of `s` over a run, not counting those that overwrite a live record. */
  function Registrations(r: Registry, steps: seq<Step>, s: Surface): nat
    decreases |steps|
  {
    if steps == [] then 0
    else (if FreshlyRegisters(r, steps[0], s) then 1 else 0) + Registrations(Apply(r, steps[0]).state, steps[1..], s)
  }

  /** How often a `ReleaseAll` of the run found `s` registered. */
  function TornDown(r: Registry, steps: seq<Step>, s: Surface): nat
    decreases |steps|
  {
    if steps == [] then 0
    else (if steps[0].op.DoReleaseAll? && s in r.surfaces then 1 else 0) +
         TornDown(Apply(r, steps[0]).state, steps[1..], s)
  }

  function Live(r: Registry, s: Surface): nat {
    if s in r.surfaces then 1 else 0
  }

  /** No surface is lost or forgotten twice: over any run, what was live or registered is live, was
      announced as forgotten, or went with a `ReleaseAll`. */
  lemma {:induction false} SurfacesAreConserved(r: Registry, steps: seq<Step>, s: Surface)
    requires Consistent(r)
    ensures var later := Run(r, steps);
      Live(r, s) + Registrations(r, steps, s) ==
      Told(later.hookCalls, OnSurfaceForgotten(s)) - Told(r.hookCalls, OnSurfaceForgotten(s)) +
      Live(later, s) + TornDown(r, steps, s)
    decreases |steps|
  {
    hide Told, BindAccepted, Apply, Consistent, Registers;
    if steps != [] {
      var next := Apply(r, steps[0]).state;
      StepKeepsConsistent(r, steps[0]);
      StepConserves(r, steps[0], s);
      SurfacesAreConserved(next, steps[1..], s);
    }
  }

  lemma StepConserves(r: Registry, step: Step, s: Surface)
    requires Consistent(r)
    ensures var next := Apply(r, step).state;
      Live(r, s) + (if FreshlyRegisters(r, step, s) then 1 else 0) ==
      Told(next.hookCalls, OnSurfaceForgotten(s)) - Told(r.hookCalls, OnSurfaceForgotten(s)) +
      Live(next, s) + (if step.op.DoReleaseAll? && s in r.surfaces then 1 else 0)
  {
    hide Told, BindAccepted, Apply, Consistent;
    StepAccount(r, step);
    assert Notice(OnSurfaceForgotten(s));
    assert Announces(r, step, OnSurfaceForgotten(s)) <==> Destroys(r, step, s);
  }

  // ---- deferred destruction -----------------------------------------------------------------

  /** A registration ends only by `ReleaseAll` or by a destruction, and at a destruction no thread
      but the caller holds the surface. A pending surface somebody holds is destroyed in exactly the
      step in which its last holder lets go. */
  lemma DroppedOnlyUnheld(r: Registry, step: Step, s: Surface)
    requires Consistent(r) && s in r.surfaces && s !in Apply(r, step).state.surfaces
    ensures step.op.DoReleaseAll? || Destroys(r, step, s)
    ensures !step.op.DoReleaseAll? ==> !HeldByAnother(r, step.thread, s)
    ensures !step.op.DoReleaseAll? && !Dangles(r, step) ==> !IsCurrent(Apply(r, step).state, s)
  {
    hide Told, BindAccepted, Apply;
    StepAccount(r, step);
    if Binds(r, step) {
      BoundDisplay(r, step);
    }
  }

  lemma PendingDiesWithItsLastHolder(r: Registry, step: Step, s: Surface)
    requires Consistent(r) && !step.op.DoResetRuntime?
    requires s in r.surfaces && r.surfaces[s].destroyPending && IsCurrent(r, s)
    requires !IsCurrent(Apply(r, step).state, s)
    ensures s !in Apply(r, step).state.surfaces
    ensures !step.op.DoReleaseAll? ==>
      Told(Apply(r, step).state.hookCalls, OnSurfaceForgotten(s)) == Told(r.hookCalls, OnSurfaceForgotten(s)) + 1
  {
    hide Told, BindAccepted, Apply;
    StepAccount(r, step);
    var later := Apply(r, step).state;
    if !step.op.DoReleaseAll? {
      var t :| t in r.currentThreads && r.currentThreads[t].draw == s;
      assert t !in later.currentThreads || later.currentThreads[t].draw != s;
      assert t == step.thread && Unbinds(r, step);
      assert forall other :: other in r.currentThreads && other != t ==>
        other in later.currentThreads && later.currentThreads[other] == r.currentThreads[other];
      assert Announces(r, step, OnSurfaceForgotten(s));
    }
  }

  // ---- threads do not disturb each other ----------------------------------------------------

  /** A step of some thread other than `thread` that is not one of the two resets. */
  predicate Foreign(step: Step, thread: ThreadId) {
    step.thread != thread && !step.op.DoResetRuntime? && !step.op.DoReleaseAll?
  }

  predicate AllForeign(steps: seq<Step>, thread: ThreadId) {
    forall i :: 0 <= i < |steps| ==> Foreign(steps[i], thread)
  }

  /** The display in force after the steps: the last one they initialize, or `dpy`. */
  function Selected(steps: seq<Step>, dpy: Display): Display
    decreases |steps|
  {
    if steps == [] then dpy
    else
      var op := steps[0].op;
      Selected(steps[1..], if op.DoInitializeDisplay? && op.dpy != NONE then op.dpy else dpy)
  }

  lemma StepKeepsDisplay(r: Registry, step: Step)
    requires Consistent(r) && !step.op.DoInitializeDisplay? && !step.op.DoReleaseAll?
    ensures Apply(r, step).state.display == r.display
  {
    hide MakeCurrent, ReleaseThread, Consistent, BindAccepted;
    match step.op
    case DoMakeCurrent(dpy, draw, read, ctx) =>
      if IsReleaseRequest(draw, read, ctx) {
        ReleaseRequestReleases(r, step);
        ReleaseThreadEffect(r, step.thread);
      } else if Binds(r, step) {
        AcceptedBindEffect(r, step.thread, dpy, draw, read, ctx, step.answers);
      } else {
        RefusedBindEffect(r, step.thread, dpy, draw, read, ctx, step.answers);
      }
    case DoSwap(_, draw) => ActivateKeeps(r, draw, step.answers);
    case _ =>
  }

  /** No interleaving of other threads' operations moves a thread's binding, nor takes away the
      registration of the surface it is current on. */
  lemma {:induction false} OthersKeepMyBinding(r: Registry, steps: seq<Step>, thread: ThreadId)
    requires Consistent(r) && AllForeign(steps, thread)
    requires thread in r.currentThreads && r.currentThreads[thread].draw in r.surfaces
    ensures var later := Run(r, steps);
      && Consistent(later)
      && thread in later.currentThreads && later.currentThreads[thread] == r.currentThreads[thread]
      && r.currentThreads[thread].draw in later.surfaces
    decreases |steps|
  {
    hide Told, BindAccepted, Apply, Consistent;
    if steps != [] {
      var next := Apply(r, steps[0]).state;
      StepKeepsConsistent(r, steps[0]);
      OtherKeepsMyBinding(r, steps[0], thread);
      assert AllForeign(steps[1..], thread) by {
        assert forall i :: 0 <= i < |steps[1..]| ==> steps[1..][i] == steps[i + 1];
      }
      OthersKeepMyBinding(next, steps[1..], thread);
    }
  }

  lemma OtherKeepsMyBinding(r: Registry, step: Step, thread: ThreadId)
    requires Consistent(r) && Foreign(step, thread)
    requires thread in r.currentThreads && r.currentThreads[thread].draw in r.surfaces
    ensures var later := Apply(r, step).state;
      && thread in later.currentThreads && later.currentThreads[thread] == r.currentThreads[thread]
      && r.currentThreads[thread].draw in later.surfaces
  {
    hide Told, BindAccepted, Apply;
    StepAccount(r, step);
    assert Holds(r, thread, r.currentThreads[thread].draw);
  }

  lemma {:induction false} OthersSelectTheDisplay(r: Registry, steps: seq<Step>, thread: ThreadId)
    requires Consistent(r) && AllForeign(steps, thread) && r.displayInitialized
    ensures Run(r, steps).displayInitialized && Run(r, steps).display == Selected(steps, r.display)
    decreases |steps|
  {
    hide Apply, Consistent;
    if steps != [] {
      var next := Apply(r, steps[0]).state;
      StepKeepsConsistent(r, steps[0]);
      StepSelectsDisplay(r, steps[0]);
      assert AllForeign(steps[1..], thread) by {
        assert forall i :: 0 <= i < |steps[1..]| ==> steps[1..][i] == steps[i + 1];
      }
      OthersSelectTheDisplay(next, steps[1..], thread);
    }
  }

  lemma StepSelectsDisplay(r: Registry, step: Step)
    requires Consistent(r) && r.displayInitialized && !step.op.DoReleaseAll?
    ensures Apply(r, step).state.displayInitialized
    ensures Apply(r, step).state.display == Selected([step], r.display)
  {
    hide MakeCurrent, ReleaseThread, Activate, BindAccepted;
    StepKeepsConsistent(r, step);
    if !step.op.DoInitializeDisplay? {
      StepKeepsDisplay(r, step);
    }
  }

  // ---- the capability probe ------------------------------------------------------------------

  /** A bind runs the capability probe at most once, and exactly when it gets as far as having its
      surface up, has a context, and a probe is due: none has succeeded since the last reset or
      first activation. */
  lemma BindProbesExactlyWhenDue(r: Registry, thread: ThreadId, dpy: Display, draw: Surface, read: Surface,
                                 ctx: Context, answers: HookAnswers)
    requires Consistent(r) && !IsReleaseRequest(draw, read, ctx)
    ensures Told(MakeCurrent(r, thread, dpy, draw, read, ctx, answers).state.hookCalls, InitCapabilities) ==
      Told(r.hookCalls, InitCapabilities) +
      (if DisplayIs(r, dpy) && draw == read && draw in r.surfaces && ctx != NONE && ProbeDue(r, draw) &&
          (IsActive(r, draw) || InitAnswer(r.surfaces[draw], answers))
       then 1 else 0)
  {
    hide Told, MakeCurrent, ReleaseThread, Consistent;
    MakeCurrentStages(r, thread, dpy, draw, read, ctx, answers);
    if draw in r.surfaces {
      var record := r.surfaces[draw];
      TellOne(r.hookCalls, InitWindowSurface(draw, record.window), InitCapabilities);
      TellOne(r.hookCalls, InitPbufferSurface(draw, record.width, record.height), InitCapabilities);
      assert r.hookCalls + [] == r.hookCalls;
      var up := Activate(r, draw, answers).state;
      TellOne(up.hookCalls, InitCapabilities, InitCapabilities);
      ActivateKeeps(r, draw, answers);
      ProbeKeepsConsistent(up, answers);
      ReleaseThreadProbesNothing(Probe(up, answers).state, thread);
    }
  }

  lemma ProbeKeepsConsistent(r: Registry, answers: HookAnswers)
    requires Consistent(r)
    ensures Consistent(Probe(r, answers).state)
  {
  }

  lemma ReleaseThreadProbesNothing(r: Registry, thread: ThreadId)
    requires Consistent(r)
    ensures Told(ReleaseThread(r, thread).hookCalls, InitCapabilities) == Told(r.hookCalls, InitCapabilities)
  {
    hide Told, Drop;
    if thread in r.currentThreads {
      ReleaseThreadCollectsOnce(r, thread);
      DropProbesNothing(r.(currentThreads := r.currentThreads - {thread}), r.currentThreads[thread].draw);
    }
  }

  lemma DropProbesNothing(r: Registry, surface: Surface)
    ensures Told(Drop(r, surface).hookCalls, InitCapabilities) == Told(r.hookCalls, InitCapabilities)
  {
    hide Told;
    var released := if r.activeSurface == surface then r.hookCalls + [OnSurfaceReleased(surface)] else r.hookCalls;
    TellOne(r.hookCalls, OnSurfaceReleased(surface), InitCapabilities);
    TellOne(released, OnSurfaceForgotten(surface), InitCapabilities);
    assert Drop(r, surface).hookCalls == released + [OnSurfaceForgotten(surface)];
  }

  // ---- presentation -------------------------------------------------------------------------

  /** A swap that presents, presents the caller's own surface: that surface is active when the
      present runs, registered, and current on the calling thread. A swap that answers false
      presents nothing. Either way no binding and no registration moves. */
  lemma SwapPresentsTheCallersSurface(r: Registry, thread: ThreadId, dpy: Display, draw: Surface, answers: HookAnswers)
    requires Consistent(r)
    ensures var out := Swap(r, thread, dpy, draw, answers);
      && out.state.currentThreads == r.currentThreads && out.state.surfaces.Keys == r.surfaces.Keys
      && Told(out.state.hookCalls, Present) == Told(r.hookCalls, Present) + (if out.ok then 1 else 0)
      && (out.ok ==>
           && IsActive(out.state, draw) && draw in out.state.surfaces && Holds(out.state, thread, draw)
           && out.state.hookCalls[|out.state.hookCalls| - 1] == Present)
      && (out.ok <==> MaySwap(r, thread, dpy, draw) && answers.present &&
                      (IsActive(r, draw) || InitAnswer(r.surfaces[draw], answers)))
  {
    hide Told, Consistent;
    ActivateKeeps(r, draw, answers);
    if MaySwap(r, thread, dpy, draw) {
      var record := r.surfaces[draw];
      TellOne(r.hookCalls, InitWindowSurface(draw, record.window), Present);
      TellOne(r.hookCalls, InitPbufferSurface(draw, record.width, record.height), Present);
      assert r.hookCalls + [] == r.hookCalls;
      var up := if IsActive(r, draw) then r else Activate(r, draw, answers).state;
      TellOne(up.hookCalls, GetPresentFunction, Present);
      TellOne(up.hookCalls + [GetPresentFunction], Present, Present);
      assert up.hookCalls + [GetPresentFunction, Present] == up.hookCalls + [GetPresentFunction] + [Present];
    }
  }

  /** Once a thread has made a surface current, whatever the other threads do in between - activating
      their own windows, releasing this very surface - it stays registered, and the thread's swap brings it
      back and presents it if and only if the display it is bound on is the one in force again, the
      backend presents, and it is active or the backend brings it up. Initializing another display, which
      the source allows on the ground that nobody reads that field, makes the swaps of all others answer
      false and change nothing. */
  lemma {:induction false} MySwapPresentsExactly(r: Registry, mine: Step, others: seq<Step>, answers: HookAnswers)
    requires Consistent(r) && Binds(r, mine) && !Dangles(r, mine)
    requires AllForeign(others, mine.thread)
    ensures var before := Run(Apply(r, mine).state, others);
      var draw := mine.op.draw;
      var out := Swap(before, mine.thread, mine.op.dpy, draw, answers);
      && draw in before.surfaces
      && (out.ok <==> Selected(others, mine.op.dpy) == mine.op.dpy && answers.present &&
                      (IsActive(before, draw) || InitAnswer(before.surfaces[draw], answers)))
      && (out.ok ==> IsActive(out.state, draw) &&
                     Told(out.state.hookCalls, Present) == Told(before.hookCalls, Present) + 1)
      && (Selected(others, mine.op.dpy) != mine.op.dpy ==> out.state == before)
  {
    hide Told, Swap, Apply, BindAccepted, Selected;
    var bound := Apply(r, mine).state;
    var DoMakeCurrent(dpy, draw, read, ctx) := mine.op;
    StepKeepsConsistent(r, mine);
    StepAccount(r, mine);
    StepKeepsDisplay(r, mine);
    BoundDisplay(r, mine);
    assert bound.currentThreads[mine.thread] == CurrentState(dpy, draw, read, ctx);
    OthersKeepMyBinding(bound, others, mine.thread);
    OthersSelectTheDisplay(bound, others, mine.thread);
    var before := Run(bound, others);
    SwapPresentsTheCallersSurface(before, mine.thread, dpy, draw, answers);
    if !MaySwap(before, mine.thread, dpy, draw) {
      RefusedSwap(before, mine.thread, dpy, draw, answers);
    }
  }

  lemma RefusedSwap(r: Registry, thread: ThreadId, dpy: Display, draw: Surface, answers: HookAnswers)
    requires !MaySwap(r, thread, dpy, draw)
    ensures Swap(r, thread, dpy, draw, answers) == Outcome(r, false)
  {
  }

  lemma BoundDisplay(r: Registry, step: Step)
    requires Consistent(r) && Binds(r, step)
    ensures DisplayIs(r, step.op.dpy) && step.op.ctx != NONE && step.op.draw != NONE && step.op.draw in r.surfaces
    ensures step.op.draw == step.op.read
  {
  }

  // ---- the quirk, concretely ----------------------------------------------------------------

  const WILLING := HookAnswers(true, true, true, true)

  /** A pbuffer is created, made current, and released, so that it waits for its holder to let go. */
  const PENDING_RUN: seq<Step> := [
    Step(1, DoInitializeDisplay(9), WILLING),
    Step(1, DoCreatePbuffer(5, 4, 4), WILLING),
    Step(1, DoMakeCurrent(9, 5, 5, 7), WILLING),
    Step(1, DoReleaseSurface(5), WILLING)]

  lemma CreatedPbuffer() returns (created: Registry)
    ensures created == Apply(Apply(INITIAL, PENDING_RUN[0]).state, PENDING_RUN[1]).state
    ensures created.surfaces == map[5 := SurfaceState(Pbuffer, false, true, NO_WINDOW, 4, 4)]
    ensures created.currentThreads == map[] && IsActive(created, 5) && DisplayIs(created, 9) && Consistent(created)
  {
    created := Apply(Apply(INITIAL, PENDING_RUN[0]).state, PENDING_RUN[1]).state;
  }

  lemma BoundPbuffer(created: Registry) returns (bound: Registry)
    requires created.surfaces == map[5 := SurfaceState(Pbuffer, false, true, NO_WINDOW, 4, 4)]
    requires created.currentThreads == map[] && IsActive(created, 5) && DisplayIs(created, 9) && Consistent(created)
    ensures bound == Apply(created, PENDING_RUN[2]).state
    ensures bound.surfaces.Keys == {5} && bound.currentThreads == map[1 := CurrentState(9, 5, 5, 7)]
    ensures IsActive(bound, 5) && DisplayIs(bound, 9) && Consistent(bound) && bound.capabilitiesInitialized
  {
    hide MakeCurrent;
    AcceptedBindEffect(created, 1, 9, 5, 5, 7, WILLING);
    bound := Apply(created, PENDING_RUN[2]).state;
    assert !DiesWith(created, 1, 5);
  }

  /** One more step after the four. */
  lemma PendingRunThen(step: Step) returns (held: Registry)
    ensures held.currentThreads == map[1 := CurrentState(9, 5, 5, 7)] && held.surfaces.Keys == {5}
    ensures held.surfaces[5].destroyPending && Consistent(held) && DisplayIs(held, 9) && IsActive(held, 5)
    ensures held.capabilitiesInitialized
    ensures Run(INITIAL, PENDING_RUN + [step]) == Apply(held, step).state
  {
    hide MakeCurrent, Run;
    var created := CreatedPbuffer();
    var bound := BoundPbuffer(created);
    assert 1 in bound.currentThreads && bound.currentThreads[1].draw == 5;
    held := Apply(bound, PENDING_RUN[3]).state;
    RunFour(INITIAL, PENDING_RUN[0], PENDING_RUN[1], PENDING_RUN[2], PENDING_RUN[3], [step]);
    RunFirst(held, step, []);
    RunNone(Apply(held, step).state);
    assert [step] + [] == [step];
  }

  lemma RunNone(r: Registry)
    ensures Run(r, []) == r
  {
  }

  /** The same thread makes it current again: the bind succeeds - on a surface the bind itself destroyed. */
  lemma RebindingAPendingSurfaceDangles()
    ensures var later := Run(INITIAL, PENDING_RUN + [Step(1, DoMakeCurrent(9, 5, 5, 7), WILLING)]);
      && later.currentThreads == map[1 := CurrentState(9, 5, 5, 7)]
      && 5 !in later.surfaces && !later.hasActiveSurface
      && !WellBound(later)
  {
    hide Run, MakeCurrent, Consistent, PENDING_RUN;
    var step := Step(1, DoMakeCurrent(9, 5, 5, 7), WILLING);
    var held := PendingRunThen(step);
    assert DiesWith(held, 1, 5);
    AcceptedBindEffect(held, 1, 9, 5, 5, 7, WILLING);
  }

  /** A bare reset at that point leaves the surface registered, waiting, and with nobody to let go. */
  lemma ResettingStrandsAPendingSurface()
    ensures var later := Run(INITIAL, PENDING_RUN + [Step(1, DoResetRuntime, WILLING)]);
      && 5 in later.surfaces && later.surfaces[5].destroyPending && later.currentThreads == map[]
      && !PendingHeld(later)
  {
    hide Run, Consistent, PENDING_RUN;
    var held := PendingRunThen(Step(1, DoResetRuntime, WILLING));
    assert 5 in held.surfaces;
  }

  /** Another thread initializes another display: the bound thread's swap is refused. */
  lemma AnotherDisplayStopsASwap()
    ensures var later := Run(INITIAL, PENDING_RUN + [Step(2, DoInitializeDisplay(8), WILLING)]);
      && later.currentThreads == map[1 := CurrentState(9, 5, 5, 7)] && 5 in later.surfaces
      && !Swap(later, 1, 9, 5, WILLING).ok
  {
    hide Run, Consistent, PENDING_RUN;
    var held := PendingRunThen(Step(2, DoInitializeDisplay(8), WILLING));
  }

  lemma RunFirst(r: Registry, step: Step, rest: seq<Step>)
    ensures Run(r, [step] + rest) == Run(Apply(r, step).state, rest)
  {
    hide Apply;
    assert ([step] + rest)[1..] == rest;
  }

  lemma RunFour(r: Registry, a: Step, b: Step, c: Step, d: Step, rest: seq<Step>)
    ensures Run(r, [a, b, c, d] + rest) ==
      Run(Apply(Apply(Apply(Apply(r, a).state, b).state, c).state, d).state, rest)
  {
    hide Apply, Run;
    var ra := Apply(r, a).state;
    var rb := Apply(ra, b).state;
    var rc := Apply(rb, c).state;
    RunFirst(r, a, [b, c, d] + rest);
    RunFirst(ra, b, [c, d] + rest);
    RunFirst(rb, c, [d] + rest);
    RunFirst(rc, d, rest);
    assert [a] + ([b, c, d] + rest) == [a, b, c, d] + rest && [b] + ([c, d] + rest) == [b, c, d] + rest;
    assert [c] + ([d] + rest) == [c, d] + rest;
  }
}
