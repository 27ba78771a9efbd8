/** What every operation of the surface registry keeps, and the exact boundaries of the two
  properties that some operations break. */
module RegistryInvariants {
  import opened Wrappers
  import opened RegistryModel

  /** Kept by every operation with no premise at all. */
  ghost predicate Consistent(r: Registry) {
    && NONE !in r.surfaces
    && (forall s :: s in r.surfaces ==> r.surfaces[s].kind != NoKind)
    && (r.displayInitialized <==> r.display != NONE)
    && (r.hasActiveSurface <==> r.activeSurface != NONE)
    && (r.hasActiveSurface <==> r.activeSurfaceKind != NoKind)
    && (r.hasActiveSurface ==> r.activeSurface in r.surfaces)
    && (forall t :: t in r.currentThreads ==> Genuine(r.currentThreads[t]))
  }

  predicate Genuine(c: CurrentState) {
    c.draw == c.read != NONE && c.display != NONE && c.context != NONE
  }

  /** Every thread's current surface is still registered. */
  ghost predicate WellBound(r: Registry) {
    forall t :: t in r.currentThreads ==> r.currentThreads[t].draw in r.surfaces
  }

  /** A surface waiting for its destruction is current on some thread. */
  ghost predicate PendingHeld(r: Registry) {
    forall s :: s in r.surfaces && r.surfaces[s].destroyPending ==> IsCurrent(r, s)
  }

  /** Some thread other than `thread` holds `surface`. */
  ghost predicate HeldByAnother(r: Registry, thread: ThreadId, surface: Surface) {
    exists t :: t in r.currentThreads && t != thread && r.currentThreads[t].draw == surface
  }

  predicate Holds(r: Registry, thread: ThreadId, surface: Surface) {
    thread in r.currentThreads && r.currentThreads[thread].draw == surface
  }

  /** Records that differ at most in the first-activation mark of `draw`. */
  ghost predicate SameButActivated(r: Registry, later: Registry, draw: Surface) {
    forall s :: s in later.surfaces && s in r.surfaces ==>
      && later.surfaces[s] == r.surfaces[s].(activated := later.surfaces[s].activated)
      && (s != draw ==> later.surfaces[s] == r.surfaces[s])
  }

  // ---- the building blocks ------------------------------------------------------------------

  lemma ActivateKeepsConsistent(r: Registry, surface: Surface, answers: HookAnswers)
    requires Consistent(r)
    ensures Consistent(Activate(r, surface, answers).state)
  {
  }

  lemma ActivateKeeps(r: Registry, surface: Surface, answers: HookAnswers)
    requires Consistent(r)
    ensures var out := Activate(r, surface, answers);
      && Consistent(out.state)
      && out.state.currentThreads == r.currentThreads
      && out.state.surfaces.Keys == r.surfaces.Keys
      && SameButActivated(r, out.state, surface)
      && out.state.display == r.display
      && (out.ok ==> IsActive(out.state, surface))
      && (out.ok <==> surface in r.surfaces && (IsActive(r, surface) || InitAnswer(r.surfaces[surface], answers)))
  {
    hide Consistent;
    ActivateKeepsConsistent(r, surface, answers);
    if surface in r.surfaces {
      var marked := r.surfaces[surface := r.surfaces[surface].(activated := true)];
      assert marked.Keys == r.surfaces.Keys;
    }
  }

  lemma CollectKeeps(r: Registry, surface: Surface)
    requires Consistent(r)
    ensures Consistent(CollectPending(r, surface))
  {
  }

  /** A genuine binding draws to and reads from one surface, so one collection is enough. */
  lemma ReleaseThreadCollectsOnce(r: Registry, thread: ThreadId)
    requires thread in r.currentThreads && Genuine(r.currentThreads[thread])
    ensures ReleaseThread(r, thread) ==
            CollectPending(r.(currentThreads := r.currentThreads - {thread}), r.currentThreads[thread].draw)
  {
  }

  /** Letting go of a binding: the surface goes exactly when it was pending and nobody else held it. */
  lemma ReleaseThreadEffect(r: Registry, thread: ThreadId)
    requires Consistent(r)
    ensures var out := ReleaseThread(r, thread);
      && Consistent(out)
      && out.currentThreads == r.currentThreads - {thread}
      && (forall s :: s in out.surfaces ==> s in r.surfaces && out.surfaces[s] == r.surfaces[s])
      && (forall s :: s in r.surfaces && s !in out.surfaces ==> DiesWith(r, thread, s))
      && (forall s :: DiesWith(r, thread, s) ==> s !in out.surfaces)
      && out.display == r.display && out.displayInitialized == r.displayInitialized
      && out.capabilitiesInitialized == r.capabilitiesInitialized
      && (if r.hasActiveSurface && DiesWith(r, thread, r.activeSurface)
          then !out.hasActiveSurface
          else out.hasActiveSurface == r.hasActiveSurface && out.activeSurface == r.activeSurface)
  {
    if thread in r.currentThreads {
      ReleaseThreadCollectsOnce(r, thread);
      var draw := r.currentThreads[thread].draw;
      var left := r.(currentThreads := r.currentThreads - {thread});
      HeldAfterLeaving(r, thread, draw);
      CollectKeeps(left, draw);
    }
  }

  /** `thread` is the last holder of the pending `surface`. */
  ghost predicate DiesWith(r: Registry, thread: ThreadId, surface: Surface) {
    Holds(r, thread, surface) && surface in r.surfaces && r.surfaces[surface].destroyPending &&
    !HeldByAnother(r, thread, surface)
  }

  lemma HeldAfterLeaving(r: Registry, thread: ThreadId, surface: Surface)
    requires Consistent(r) && surface != NONE
    ensures IsCurrent(r.(currentThreads := r.currentThreads - {thread}), surface) <==> HeldByAnother(r, thread, surface)
  {
    var left := r.(currentThreads := r.currentThreads - {thread});
    if HeldByAnother(r, thread, surface) {
      var t :| t in r.currentThreads && t != thread && r.currentThreads[t].draw == surface;
      assert t in left.currentThreads && left.currentThreads[t].draw == surface;
    }
  }

  // ---- what a make-current does -------------------------------------------------------------

  /** The caller can tell, before the call, whether its bind will be accepted. */
  predicate BindAccepted(r: Registry, dpy: Display, draw: Surface, read: Surface, ctx: Context, answers: HookAnswers)
  {
    && DisplayIs(r, dpy) && draw == read && draw in r.surfaces && ctx != NONE
    && (IsActive(r, draw) || InitAnswer(r.surfaces[draw], answers))
    && (ProbeDue(r, draw) ==> answers.capabilities)
  }

  /** The capability probe runs at this bind: never run since it was last reset, or the bind is
      `draw`'s first activation. */
  predicate ProbeDue(r: Registry, draw: Surface)
    requires draw in r.surfaces
  {
    !r.capabilitiesInitialized || (!IsActive(r, draw) && !r.surfaces[draw].activated)
  }

  lemma BringUpIsOneActivation(r: Registry, draw: Surface, read: Surface, answers: HookAnswers)
    requires Consistent(r)
    ensures var up := BringUp(r, draw, read, answers);
      && (draw == read && draw in r.surfaces ==> up == Activate(r, draw, answers))
      && (!(draw == read && draw in r.surfaces) ==> !up.ok && up.state == r)
  {
    ActivateKeeps(r, draw, answers);
  }

  /** A bind is one activation, then one probe if it is due, then the exchange of bindings. */
  lemma MakeCurrentStages(r: Registry, thread: ThreadId, dpy: Display, draw: Surface, read: Surface, ctx: Context,
                          answers: HookAnswers)
    requires Consistent(r) && !IsReleaseRequest(draw, read, ctx)
    ensures MakeCurrent(r, thread, dpy, draw, read, ctx, answers) ==
            if !DisplayIs(r, dpy) || draw != read || draw !in r.surfaces then Outcome(r, false)
            else
              var up := Activate(r, draw, answers);
              if !up.ok || ctx == NONE then Outcome(up.state, false)
              else
                var probed := Probe(up.state, answers);
                if !probed.ok then probed
                else
                  var left := ReleaseThread(probed.state, thread);
                  var binding := CurrentState(dpy, draw, read, ctx);
                  Outcome(left.(currentThreads := left.currentThreads[thread := binding]), true)
  {
    BringUpIsOneActivation(r, draw, read, answers);
  }

  /** Acceptance is decided by the state and the answers the caller could look at beforehand. */
  lemma BindAcceptedExactly(r: Registry, thread: ThreadId, dpy: Display, draw: Surface, read: Surface, ctx: Context,
                            answers: HookAnswers)
    requires Consistent(r) && !IsReleaseRequest(draw, read, ctx)
    ensures MakeCurrent(r, thread, dpy, draw, read, ctx, answers).ok <==> BindAccepted(r, dpy, draw, read, ctx, answers)
  {
    MakeCurrentStages(r, thread, dpy, draw, read, ctx, answers);
    ActivateKeeps(r, draw, answers);
  }

  /** A refused bind keeps every binding and every registration. */
  lemma RefusedBindEffect(r: Registry, thread: ThreadId, dpy: Display, draw: Surface, read: Surface, ctx: Context,
                          answers: HookAnswers)
    requires Consistent(r) && !IsReleaseRequest(draw, read, ctx)
    requires !BindAccepted(r, dpy, draw, read, ctx, answers)
    ensures var out := MakeCurrent(r, thread, dpy, draw, read, ctx, answers);
      && !out.ok
      && Consistent(out.state)
      && out.state.display == r.display
      && out.state.currentThreads == r.currentThreads
      && out.state.surfaces.Keys == r.surfaces.Keys
      && SameButActivated(r, out.state, draw)
  {
    MakeCurrentStages(r, thread, dpy, draw, read, ctx, answers);
    BindAcceptedExactly(r, thread, dpy, draw, read, ctx, answers);
    ActivateKeeps(r, draw, answers);
  }

  lemma AcceptedBindStages(r: Registry, thread: ThreadId, dpy: Display, draw: Surface, read: Surface, ctx: Context,
                           answers: HookAnswers)
    requires Consistent(r) && !IsReleaseRequest(draw, read, ctx)
    requires BindAccepted(r, dpy, draw, read, ctx, answers)
    ensures var probed := Probe(Activate(r, draw, answers).state, answers).state;
      var left := ReleaseThread(probed, thread);
      && MakeCurrent(r, thread, dpy, draw, read, ctx, answers) ==
         Outcome(left.(currentThreads := left.currentThreads[thread := CurrentState(dpy, draw, read, ctx)]), true)
      && Consistent(probed) && IsActive(probed, draw) && probed.capabilitiesInitialized
      && probed.display == r.display && probed.currentThreads == r.currentThreads
      && probed.surfaces.Keys == r.surfaces.Keys && SameButActivated(r, probed, draw)
      && Genuine(CurrentState(dpy, draw, read, ctx))
  {
    MakeCurrentStages(r, thread, dpy, draw, read, ctx, answers);
    BindAcceptedExactly(r, thread, dpy, draw, read, ctx, answers);
    ActivateKeeps(r, draw, answers);
  }

  /** An accepted bind leaves the caller current on exactly (dpy, draw, read, ctx) and moves no other
      thread; the probe has run; the registrations that go are those the caller was the last holder
      of; and `draw` is active - unless it was itself one of those. */
  lemma AcceptedBindEffect(r: Registry, thread: ThreadId, dpy: Display, draw: Surface, read: Surface, ctx: Context,
                           answers: HookAnswers)
    requires Consistent(r) && !IsReleaseRequest(draw, read, ctx)
    requires BindAccepted(r, dpy, draw, read, ctx, answers)
    ensures var out := MakeCurrent(r, thread, dpy, draw, read, ctx, answers);
      && out.ok
      && Consistent(out.state)
      && out.state.display == r.display
      && out.state.currentThreads == r.currentThreads[thread := CurrentState(dpy, draw, read, ctx)]
      && out.state.capabilitiesInitialized
      && out.state.surfaces.Keys == (set s | s in r.surfaces && !DiesWith(r, thread, s))
      && SameButActivated(r, out.state, draw)
      && (IsActive(out.state, draw) <==> !DiesWith(r, thread, draw))
      && (DiesWith(r, thread, draw) ==> !out.state.hasActiveSurface)
  {
    hide MakeCurrent, Activate, ReleaseThread, Probe, BindAccepted, DiesWith, Consistent;
    AcceptedBindStages(r, thread, dpy, draw, read, ctx, answers);
    var probed := Probe(Activate(r, draw, answers).state, answers).state;
    LettingGoAfterBringUp(r, probed, thread, draw);
    BindingKeepsConsistent(ReleaseThread(probed, thread), thread, CurrentState(dpy, draw, read, ctx));
  }

  lemma BindingKeepsConsistent(r: Registry, thread: ThreadId, binding: CurrentState)
    requires Consistent(r) && Genuine(binding)
    ensures Consistent(r.(currentThreads := r.currentThreads[thread := binding]))
  {
  }

  lemma LettingGoAfterBringUp(r: Registry, probed: Registry, thread: ThreadId, draw: Surface)
    requires Consistent(r) && Consistent(probed) && IsActive(probed, draw)
    requires probed.currentThreads == r.currentThreads && probed.surfaces.Keys == r.surfaces.Keys
    requires forall s :: s in r.surfaces ==> probed.surfaces[s].destroyPending == r.surfaces[s].destroyPending
    ensures var left := ReleaseThread(probed, thread);
      && Consistent(left)
      && left.currentThreads == r.currentThreads - {thread}
      && left.surfaces.Keys == (set s | s in r.surfaces && !DiesWith(r, thread, s))
      && (forall s :: s in left.surfaces ==> left.surfaces[s] == probed.surfaces[s])
      && left.capabilitiesInitialized == probed.capabilitiesInitialized
      && left.display == probed.display
      && (IsActive(left, draw) <==> !DiesWith(r, thread, draw))
      && (DiesWith(r, thread, draw) ==> !left.hasActiveSurface)
  {
    ReleaseThreadEffect(probed, thread);
    assert forall s :: DiesWith(r, thread, s) <==> DiesWith(probed, thread, s);
  }

  // ---- every run ----------------------------------------------------------------------------

  lemma MakeCurrentKeepsConsistent(r: Registry, thread: ThreadId, dpy: Display, draw: Surface, read: Surface,
                                   ctx: Context, answers: HookAnswers)
    requires Consistent(r)
    ensures Consistent(MakeCurrent(r, thread, dpy, draw, read, ctx, answers).state)
  {
    if IsReleaseRequest(draw, read, ctx) {
      ReleaseThreadEffect(r, thread);
    } else if BindAccepted(r, dpy, draw, read, ctx, answers) {
      AcceptedBindEffect(r, thread, dpy, draw, read, ctx, answers);
    } else {
      RefusedBindEffect(r, thread, dpy, draw, read, ctx, answers);
    }
  }

  lemma SwapKeepsConsistent(r: Registry, thread: ThreadId, dpy: Display, draw: Surface, answers: HookAnswers)
    requires Consistent(r)
    ensures Consistent(Swap(r, thread, dpy, draw, answers).state)
  {
    ActivateKeeps(r, draw, answers);
  }

  lemma CreateKeepsConsistent(first: Outcome, surface: Surface, answers: HookAnswers)
    requires Consistent(first.state)
    ensures Consistent(AndThen(first, surface, answers).state)
  {
    ActivateKeeps(first.state, surface, answers);
  }

  lemma ResizeKeepsConsistent(r: Registry, surface: Surface, width: Uint32, height: Uint32)
    requires Consistent(r)
    ensures Consistent(Resize(r, surface, width, height).state)
  {
  }

  lemma SetExtentKeepsConsistent(r: Registry, surface: Surface, width: Uint32, height: Uint32, native: nat)
    requires Consistent(r)
    ensures Consistent(SetExtent(r, surface, width, height, native).state)
  {
  }

  lemma RegisterWindowKeepsConsistent(r: Registry, surface: Surface, handle: WindowHandle)
    requires Consistent(r)
    ensures Consistent(RegisterWindow(r, surface, handle).state)
  {
  }

  lemma RegisterPbufferKeepsConsistent(r: Registry, surface: Surface, width: Int32, height: Int32)
    requires Consistent(r)
    ensures Consistent(RegisterPbuffer(r, surface, width, height).state)
  {
  }

  lemma DisplayKeepsConsistent(r: Registry, dpy: Display)
    requires Consistent(r)
    ensures Consistent(InitializeDisplay(r, dpy).state)
  {
  }

  lemma WindowHandleKeepsConsistent(r: Registry, handle: WindowHandle)
    requires Consistent(r)
    ensures Consistent(r.(windowHandle := handle))
  {
  }

  lemma ResetsKeepConsistent(r: Registry)
    requires Consistent(r)
    ensures Consistent(ForgetActive(r)) && Consistent(ResetRuntime(r)) && Consistent(ReleaseAll(r))
  {
  }

  lemma AdoptActiveKeepsConsistent(r: Registry, surface: Surface)
    requires Consistent(r)
    ensures Consistent(AdoptActive(r, surface).state)
  {
  }

  lemma ReleaseSurfaceKeepsConsistent(r: Registry, surface: Surface)
    requires Consistent(r)
    ensures Consistent(ReleaseSurface(r, surface))
  {
  }

  lemma StepKeepsConsistent(r: Registry, step: Step)
    requires Consistent(r)
    ensures Consistent(Apply(r, step).state)
  {
    hide Activate, MakeCurrent, Swap, AndThen, Resize, SetExtent, AdoptActive, ReleaseSurface, RegisterWindow,
      RegisterPbuffer, Consistent, ForgetActive, ResetRuntime, ReleaseAll, InitializeDisplay;
    ResetsKeepConsistent(r);
    match step.op
    case DoAdoptActive(s) => AdoptActiveKeepsConsistent(r, s);
    case DoReleaseSurface(s) => ReleaseSurfaceKeepsConsistent(r, s);
    case DoResize(s, w, h) => ResizeKeepsConsistent(r, s, w, h);
    case DoSetExtent(s, w, h, native) => SetExtentKeepsConsistent(r, s, w, h, native);
    case DoRegisterWindow(s, handle) => RegisterWindowKeepsConsistent(r, s, handle);
    case DoRegisterPbuffer(s, w, h) => RegisterPbufferKeepsConsistent(r, s, w, h);
    case DoCreateWindow(s, handle) =>
      RegisterWindowKeepsConsistent(r, s, handle);
      CreateKeepsConsistent(RegisterWindow(r, s, handle), s, step.answers);
    case DoCreatePbuffer(s, w, h) =>
      RegisterPbufferKeepsConsistent(r, s, w, h);
      CreateKeepsConsistent(RegisterPbuffer(r, s, w, h), s, step.answers);
    case DoActivate(s) => ActivateKeeps(r, s, step.answers);
    case DoSwap(dpy, draw) => SwapKeepsConsistent(r, step.thread, dpy, draw, step.answers);
    case DoMakeCurrent(dpy, draw, read, ctx) =>
      MakeCurrentKeepsConsistent(r, step.thread, dpy, draw, read, ctx, step.answers);
    case DoInitializeDisplay(dpy) => DisplayKeepsConsistent(r, dpy);
    case DoSetWindowHandle(handle) => WindowHandleKeepsConsistent(r, handle);
    case _ =>
  }

  /** In every interleaving of every thread's operations, from any consistent registry. */
  lemma {:induction false} RunKeepsConsistent(r: Registry, steps: seq<Step>)
    requires Consistent(r)
    ensures Consistent(Run(r, steps))
    decreases |steps|
  {
    if steps != [] {
      StepKeepsConsistent(r, steps[0]);
      RunKeepsConsistent(Apply(r, steps[0]).state, steps[1..]);
    }
  }

  /** A fresh registry is consistent, every thread's surface is registered, and nothing is pending. */
  lemma FreshIsConsistent()
    ensures Consistent(INITIAL) && WellBound(INITIAL) && PendingHeld(INITIAL)
  {
  }
}
