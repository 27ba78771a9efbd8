/** Laws of whole runs of the surface registry: conservation of surfaces, deferred destruction,
  thread isolation and presentation. They follow from one exact account of what a single step does
  to the registrations, the bindings and the hook log (`StepAccount`). */
module RegistryRuns {
  import opened RegistryModel
  import opened RegistryInvariants

  /** How often the backend has been told `call`. */
  function Told(calls: seq<HookCall>, call: HookCall): nat {
    multiset(calls)[call]
  }

  /** The hooks that announce a dropped surface. */
  predicate Notice(call: HookCall) {
    call.OnSurfaceReleased? || call.OnSurfaceForgotten?
  }

  lemma TellOne(calls: seq<HookCall>, told: HookCall, call: HookCall)
    ensures Told(calls + [told], call) == Told(calls, call) + (if told == call then 1 else 0)
  {
  }

  // ---- the exact account of one step --------------------------------------------------------

  /** The handles a step (re)registers. */
  function Registers(r: Registry, step: Step): set<Surface> {
    match step.op
    case DoRegisterWindow(s, handle) => if WindowAccepted(r, s, handle) then {s} else {}
    case DoCreateWindow(s, handle) => if WindowAccepted(r, s, handle) then {s} else {}
    case DoRegisterPbuffer(s, w, h) => if PbufferAccepted(r, s, w, h) then {s} else {}
    case DoCreatePbuffer(s, w, h) => if PbufferAccepted(r, s, w, h) then {s} else {}
    case _ => {}
  }

  /** The step ends the caller's binding: a release request, or a bind that is accepted. */
  predicate Unbinds(r: Registry, step: Step) {
    step.op.DoMakeCurrent? &&
    (IsReleaseRequest(step.op.draw, step.op.read, step.op.ctx) || Binds(r, step))
  }

  predicate Binds(r: Registry, step: Step) {
    step.op.DoMakeCurrent? && !IsReleaseRequest(step.op.draw, step.op.read, step.op.ctx) &&
    BindAccepted(r, step.op.dpy, step.op.draw, step.op.read, step.op.ctx, step.answers)
  }

  /** The surfaces a step destroys: the idle one it releases, or the pending one whose last holder
      lets go in this very step. */
  ghost predicate Destroys(r: Registry, step: Step, surface: Surface) {
    surface in r.surfaces &&
    (if step.op.DoReleaseSurface? then step.op.surface == surface && !IsCurrent(r, surface)
     else Unbinds(r, step) && DiesWith(r, step.thread, surface))
  }

  predicate MarksPending(r: Registry, step: Step, surface: Surface) {
    step.op == DoReleaseSurface(surface)
  }

  /** `surface` is the active one at the moment the step drops it: a bind brings its own surface up
      before it lets go of the old one. */
  predicate ActiveWhenDropped(r: Registry, step: Step, surface: Surface) {
    if Binds(r, step) then step.op.draw == surface else r.activeSurface == surface
  }

  /** A destroyed surface is announced once: forgotten always, released first if it was active. */
  ghost predicate Announces(r: Registry, step: Step, call: HookCall)
    requires Notice(call)
  {
    Destroys(r, step, call.surface) && (call.OnSurfaceReleased? ==> ActiveWhenDropped(r, step, call.surface))
  }

  /** The bindings after a step. */
  function Bindings(r: Registry, step: Step): map<ThreadId, CurrentState> {
    match step.op
    case DoMakeCurrent(dpy, draw, read, ctx) =>
      if IsReleaseRequest(draw, read, ctx) then r.currentThreads - {step.thread}
      else if Binds(r, step) then r.currentThreads[step.thread := CurrentState(dpy, draw, read, ctx)]
      else r.currentThreads
    case DoResetRuntime => map[]
    case DoReleaseAll => map[]
    case _ => r.currentThreads
  }

  ghost predicate Accounted(r: Registry, step: Step, later: Registry) {
    && later.currentThreads == Bindings(r, step)
    && (forall s :: s in later.surfaces <==>
          !step.op.DoReleaseAll? && (s in Registers(r, step) || (s in r.surfaces && !Destroys(r, step, s))))
    && (forall s :: s in later.surfaces ==>
          (later.surfaces[s].destroyPending <==>
             s !in Registers(r, step) && (MarksPending(r, step, s) || r.surfaces[s].destroyPending)))
    && (forall call | Notice(call) ::
          Told(later.hookCalls, call) == Told(r.hookCalls, call) + (if Announces(r, step, call) then 1 else 0))
  }

  lemma ActivateTellsNothing(r: Registry, surface: Surface, answers: HookAnswers, call: HookCall)
    requires Notice(call)
    ensures Told(Activate(r, surface, answers).state.hookCalls, call) == Told(r.hookCalls, call)
  {
    hide Told;
    if surface in r.surfaces {
      var record := r.surfaces[surface];
      TellOne(r.hookCalls, InitWindowSurface(surface, record.window), call);
      TellOne(r.hookCalls, InitPbufferSurface(surface, record.width, record.height), call);
      assert r.hookCalls + [] == r.hookCalls;
    }
  }

  lemma ProbeTellsNothing(r: Registry, answers: HookAnswers, call: HookCall)
    requires Notice(call)
    ensures Told(Probe(r, answers).state.hookCalls, call) == Told(r.hookCalls, call)
  {
    hide Told;
    TellOne(r.hookCalls, InitCapabilities, call);
  }

  lemma DropTells(r: Registry, surface: Surface, call: HookCall)
    requires Notice(call)
    ensures Told(Drop(r, surface).hookCalls, call) == Told(r.hookCalls, call) +
            (if call.surface == surface && (call.OnSurfaceReleased? ==> r.activeSurface == surface) then 1 else 0)
  {
    hide Told;
    var released := if r.activeSurface == surface then r.hookCalls + [OnSurfaceReleased(surface)] else r.hookCalls;
    TellOne(r.hookCalls, OnSurfaceReleased(surface), call);
    TellOne(released, OnSurfaceForgotten(surface), call);
    assert Drop(r, surface).hookCalls == released + [OnSurfaceForgotten(surface)];
  }

  lemma DropEffect(r: Registry, surface: Surface)
    ensures Drop(r, surface).surfaces == r.surfaces - {surface}
    ensures Drop(r, surface).currentThreads == r.currentThreads
  {
  }

  lemma ReleaseThreadTells(r: Registry, thread: ThreadId, call: HookCall)
    requires Consistent(r) && Notice(call)
    ensures Told(ReleaseThread(r, thread).hookCalls, call) == Told(r.hookCalls, call) +
            (if DiesWith(r, thread, call.surface) && (call.OnSurfaceReleased? ==> r.activeSurface == call.surface)
             then 1 else 0)
  {
    hide Told, Drop;
    if thread in r.currentThreads {
      ReleaseThreadCollectsOnce(r, thread);
      var draw := r.currentThreads[thread].draw;
      HeldAfterLeaving(r, thread, draw);
      DropTells(r.(currentThreads := r.currentThreads - {thread}), draw, call);
    }
  }

  lemma BindTells(r: Registry, step: Step, call: HookCall)
    requires Consistent(r) && Notice(call)
    requires step.op.DoMakeCurrent? && !IsReleaseRequest(step.op.draw, step.op.read, step.op.ctx)
    ensures Told(Apply(r, step).state.hookCalls, call) ==
            Told(r.hookCalls, call) + (if Announces(r, step, call) then 1 else 0)
  {
    hide Told, MakeCurrent, Activate, ReleaseThread, BindAccepted, Consistent, Probe;
    var DoMakeCurrent(dpy, draw, read, ctx) := step.op;
    MakeCurrentStages(r, step.thread, dpy, draw, read, ctx, step.answers);
    BindAcceptedExactly(r, step.thread, dpy, draw, read, ctx, step.answers);
    ActivateTellsNothing(r, draw, step.answers, call);
    var up := Activate(r, draw, step.answers).state;
    ProbeTellsNothing(up, step.answers, call);
    if Binds(r, step) {
      AcceptedBindStages(r, step.thread, dpy, draw, read, ctx, step.answers);
      var probed := Probe(up, step.answers).state;
      ReleaseThreadTells(probed, step.thread, call);
      assert DiesWith(r, step.thread, call.surface) <==> DiesWith(probed, step.thread, call.surface);
    }
  }

  lemma ReleaseRequestReleases(r: Registry, step: Step)
    requires step.op.DoMakeCurrent? && IsReleaseRequest(step.op.draw, step.op.read, step.op.ctx)
    ensures Apply(r, step) == Outcome(ReleaseThread(r, step.thread), true)
  {
  }

  lemma MakeCurrentAccount(r: Registry, step: Step)
    requires Consistent(r) && step.op.DoMakeCurrent?
    ensures Accounted(r, step, Apply(r, step).state)
  {
    hide MakeCurrent, ReleaseThread, Activate, BindAccepted, Told, Consistent;
    var DoMakeCurrent(dpy, draw, read, ctx) := step.op;
    if IsReleaseRequest(draw, read, ctx) {
      ReleaseRequestReleases(r, step);
      ReleaseThreadEffect(r, step.thread);
      forall call | Notice(call)
        ensures Told(ReleaseThread(r, step.thread).hookCalls, call) ==
                Told(r.hookCalls, call) + (if Announces(r, step, call) then 1 else 0)
      {
        ReleaseThreadTells(r, step.thread, call);
      }
    } else {
      forall call | Notice(call) { BindTells(r, step, call); }
      if Binds(r, step) {
        AcceptedBindEffect(r, step.thread, dpy, draw, read, ctx, step.answers);
      } else {
        RefusedBindEffect(r, step.thread, dpy, draw, read, ctx, step.answers);
      }
    }
  }

  lemma SwapTellsNothing(r: Registry, step: Step, call: HookCall)
    requires step.op.DoSwap? && Notice(call)
    ensures Told(Apply(r, step).state.hookCalls, call) == Told(r.hookCalls, call)
  {
    hide Told, Activate;
    var up := if IsActive(r, step.op.draw) then Outcome(r, true) else Activate(r, step.op.draw, step.answers);
    ActivateTellsNothing(r, step.op.draw, step.answers, call);
    TellOne(up.state.hookCalls, GetPresentFunction, call);
    TellOne(up.state.hookCalls + [GetPresentFunction], Present, call);
    assert up.state.hookCalls + [GetPresentFunction, Present] == up.state.hookCalls + [GetPresentFunction] + [Present];
  }

  /** Bringing a surface up accounts for nothing: it moves no registration and no binding. */
  lemma ActivationKeepsAccount(r: Registry, step: Step, mid: Registry, surface: Surface)
    requires Consistent(mid) && Accounted(r, step, mid)
    ensures Accounted(r, step, Activate(mid, surface, step.answers).state)
  {
    hide Activate, Consistent, Told, Registers, Destroys, Bindings;
    ActivateKeeps(mid, surface, step.answers);
    forall call | Notice(call) { ActivateTellsNothing(mid, surface, step.answers, call); }
  }

  lemma SwapAccount(r: Registry, step: Step)
    requires Consistent(r) && step.op.DoSwap?
    ensures Accounted(r, step, Apply(r, step).state)
  {
    hide Activate, Consistent, Told;
    ActivateKeeps(r, step.op.draw, step.answers);
    forall call | Notice(call) { SwapTellsNothing(r, step, call); }
  }

  lemma ActivateAccount(r: Registry, step: Step)
    requires Consistent(r) && step.op.DoActivate?
    ensures Accounted(r, step, Apply(r, step).state)
  {
    hide Activate, Consistent, Told;
    ActivationKeepsAccount(r, step, r, step.op.surface);
  }

  lemma CreateAccount(r: Registry, step: Step)
    requires Consistent(r) && (step.op.DoCreateWindow? || step.op.DoCreatePbuffer?)
    ensures Accounted(r, step, Apply(r, step).state)
  {
    hide Activate, Consistent, RegisterWindow, RegisterPbuffer, Accounted;
    RegisterForCreateAccount(r, step);
    if step.op.DoCreateWindow? {
      RegisterWindowKeepsConsistent(r, step.op.surface, step.op.handle);
      ActivationKeepsAccount(r, step, RegisterWindow(r, step.op.surface, step.op.handle).state, step.op.surface);
    } else {
      RegisterPbufferKeepsConsistent(r, step.op.surface, step.op.w, step.op.h);
      ActivationKeepsAccount(r, step, RegisterPbuffer(r, step.op.surface, step.op.w, step.op.h).state, step.op.surface);
    }
  }

  lemma RegisterForCreateAccount(r: Registry, step: Step)
    ensures step.op.DoCreateWindow? ==>
      Accounted(r, step, RegisterWindow(r, step.op.surface, step.op.handle).state)
    ensures step.op.DoCreatePbuffer? ==>
      Accounted(r, step, RegisterPbuffer(r, step.op.surface, step.op.w, step.op.h).state)
  {
    hide Told;
  }

  lemma ReleaseSurfaceAccount(r: Registry, step: Step)
    requires Consistent(r) && step.op.DoReleaseSurface?
    ensures Accounted(r, step, Apply(r, step).state)
  {
    hide Drop, Told, Consistent;
    DropEffect(r, step.op.surface);
    forall call | Notice(call) { DropTells(r, step.op.surface, call); }
  }

  lemma RegisterAccount(r: Registry, step: Step)
    requires step.op.DoRegisterWindow? || step.op.DoRegisterPbuffer?
    ensures Accounted(r, step, Apply(r, step).state)
  {
    hide Told;
  }

  lemma ExtentAccount(r: Registry, step: Step)
    requires step.op.DoResize? || step.op.DoSetExtent?
    ensures Accounted(r, step, Apply(r, step).state)
  {
    hide Told;
  }

  lemma BookkeepingAccount(r: Registry, step: Step)
    requires step.op.DoInitializeDisplay? || step.op.DoSetWindowHandle? || step.op.DoAdoptActive? ||
             step.op.DoForgetActive? || step.op.DoResetRuntime? || step.op.DoReleaseAll?
    ensures Accounted(r, step, Apply(r, step).state)
  {
    hide Told;
  }

  /** What any operation does to the registrations, the bindings and the forgotten surfaces. */
  lemma StepAccount(r: Registry, step: Step)
    requires Consistent(r)
    ensures Accounted(r, step, Apply(r, step).state)
  {
    match step.op
    case DoMakeCurrent(_, _, _, _) => MakeCurrentAccount(r, step);
    case DoSwap(_, _) => SwapAccount(r, step);
    case DoActivate(_) => ActivateAccount(r, step);
    case DoCreateWindow(_, _) => CreateAccount(r, step);
    case DoCreatePbuffer(_, _, _) => CreateAccount(r, step);
    case DoReleaseSurface(_) => ReleaseSurfaceAccount(r, step);
    case DoRegisterWindow(_, _) => RegisterAccount(r, step);
    case DoRegisterPbuffer(_, _, _) => RegisterAccount(r, step);
    case DoResize(_, _, _) => ExtentAccount(r, step);
    case DoSetExtent(_, _, _, _) => ExtentAccount(r, step);
    case _ => BookkeepingAccount(r, step);
  }

}
