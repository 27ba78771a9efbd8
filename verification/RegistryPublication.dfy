/** Which native window the registry names: `CurrentWindowHandle` is what a backend draws into, and it is
  moved by other steps than those that move the active surface. */
module RegistryPublication {
  import opened RegistryModel
  import opened RegistryInvariants
  import RegistryLaws

  predicate WindowIsActive(r: Registry) {
    r.hasActiveSurface && r.activeSurface in r.surfaces && r.surfaces[r.activeSurface].kind == Window
  }

  /** While a window surface is active, the handle in force is its own. */
  predicate Published(r: Registry) {
    WindowIsActive(r) ==> r.windowHandle == r.surfaces[r.activeSurface].window
  }

  /** The backend refuses to bring another window up - whose handle stays published - while one is active. */
  predicate Strays(r: Registry, surface: Surface, answers: HookAnswers) {
    && surface in r.surfaces && !IsActive(r, surface) && r.surfaces[surface].kind == Window && !answers.window
    && WindowIsActive(r) && r.surfaces[r.activeSurface].window != r.surfaces[surface].window
  }

  /** The steps after which the handle in force is not that of the active window, told from the state
      before: a refused activation of another window, a handle set by hand, and a registration over the
      active surface's own record. */
  predicate Misnames(r: Registry, step: Step) {
    match step.op
    case DoActivate(surface) => Strays(r, surface, step.answers)
    case DoMakeCurrent(dpy, draw, read, ctx) =>
      !IsReleaseRequest(draw, read, ctx) && DisplayIs(r, dpy) && draw == read && Strays(r, draw, step.answers)
    case DoSwap(dpy, draw) => MaySwap(r, step.thread, dpy, draw) && Strays(r, draw, step.answers)
    case DoSetWindowHandle(handle) => WindowIsActive(r) && handle != r.surfaces[r.activeSurface].window
    case DoRegisterWindow(surface, handle) =>
      WindowAccepted(r, surface, handle) && IsActive(r, surface) && r.windowHandle != handle
    case DoCreateWindow(surface, handle) =>
      WindowAccepted(r, surface, handle) &&
      (if IsActive(r, surface) then r.windowHandle != handle
       else Strays(RegisterWindow(r, surface, handle).state, surface, step.answers))
    case _ => false
  }

  lemma ActivatePublishes(r: Registry, surface: Surface, answers: HookAnswers)
    requires Consistent(r) && Published(r)
    ensures Published(Activate(r, surface, answers).state) <==> !Strays(r, surface, answers)
  {
  }

  lemma CollectPublishes(r: Registry, surface: Surface)
    requires Consistent(r) && Published(r)
    ensures Published(CollectPending(r, surface))
  {
  }

  lemma ReleaseThreadPublishes(r: Registry, thread: ThreadId)
    requires Consistent(r) && Published(r)
    ensures Published(ReleaseThread(r, thread))
  {
    hide CollectPending;
    if thread in r.currentThreads {
      var left := r.(currentThreads := r.currentThreads - {thread});
      var draw := r.currentThreads[thread].draw;
      assert Consistent(left);
      CollectPublishes(left, draw);
      CollectKeeps(left, draw);
      CollectPublishes(CollectPending(left, draw), r.currentThreads[thread].read);
    }
  }

  lemma MakeCurrentPublishes(r: Registry, step: Step)
    requires Consistent(r) && Published(r) && step.op.DoMakeCurrent?
    ensures Published(Apply(r, step).state) <==> !Misnames(r, step)
  {
    hide Activate, ReleaseThread, Published, Strays, Consistent;
    var DoMakeCurrent(dpy, draw, read, ctx) := step.op;
    if IsReleaseRequest(draw, read, ctx) {
      ReleaseThreadPublishes(r, step.thread);
    } else {
      MakeCurrentStages(r, step.thread, dpy, draw, read, ctx, step.answers);
      ActivatePublishes(r, draw, step.answers);
      if draw !in r.surfaces {
        NotRegisteredStraysNot(r, draw, step.answers);
      }
      ActivateKeeps(r, draw, step.answers);
      var up := Activate(r, draw, step.answers);
      if up.ok {
        UpIsNoStray(r, draw, step.answers);
        ProbePublishes(up.state, step.answers);
        ReleaseThreadPublishes(Probe(up.state, step.answers).state, step.thread);
        BindingPublishes(ReleaseThread(Probe(up.state, step.answers).state, step.thread), step.thread,
                         CurrentState(dpy, draw, read, ctx));
      }
    }
  }

  lemma UpIsNoStray(r: Registry, surface: Surface, answers: HookAnswers)
    requires Activate(r, surface, answers).ok
    ensures !Strays(r, surface, answers)
  {
  }

  lemma NotRegisteredStraysNot(r: Registry, surface: Surface, answers: HookAnswers)
    requires surface !in r.surfaces
    ensures !Strays(r, surface, answers)
  {
  }

  lemma ProbePublishes(r: Registry, answers: HookAnswers)
    requires Consistent(r) && Published(r)
    ensures Consistent(Probe(r, answers).state) && Published(Probe(r, answers).state)
  {
  }

  lemma BindingPublishes(r: Registry, thread: ThreadId, binding: CurrentState)
    requires Published(r)
    ensures Published(r.(currentThreads := r.currentThreads[thread := binding]))
  {
  }

  lemma SwapPublishes(r: Registry, step: Step)
    requires Consistent(r) && Published(r) && step.op.DoSwap?
    ensures Published(Apply(r, step).state) <==> !Misnames(r, step)
  {
    hide Activate;
    ActivatePublishes(r, step.op.draw, step.answers);
  }

  lemma CreateWindowPublishes(r: Registry, step: Step)
    requires Consistent(r) && Published(r) && step.op.DoCreateWindow?
    ensures Published(Apply(r, step).state) <==> !Misnames(r, step)
  {
    hide Activate;
    var DoCreateWindow(surface, handle) := step.op;
    var registered := RegisterWindow(r, surface, handle).state;
    RegisterWindowKeepsConsistent(r, surface, handle);
    if IsActive(r, surface) {
      ActivateAgain(registered, surface, step.answers);
    } else {
      ActivatePublishes(registered, surface, step.answers);
    }
  }

  lemma ActivateAgain(r: Registry, surface: Surface, answers: HookAnswers)
    requires IsActive(r, surface)
    ensures Activate(r, surface, answers).state == r
  {
  }

  lemma CreatePbufferPublishes(r: Registry, step: Step)
    requires Consistent(r) && Published(r) && step.op.DoCreatePbuffer?
    ensures Published(Apply(r, step).state)
  {
  }

  lemma RegisterPublishes(r: Registry, step: Step)
    requires Consistent(r) && Published(r) && (step.op.DoRegisterWindow? || step.op.DoRegisterPbuffer?)
    ensures Published(Apply(r, step).state) <==> !Misnames(r, step)
  {
  }

  lemma ExtentPublishes(r: Registry, step: Step)
    requires Consistent(r) && Published(r) && (step.op.DoResize? || step.op.DoSetExtent?)
    ensures Published(Apply(r, step).state)
  {
  }

  lemma ReleasePublishes(r: Registry, step: Step)
    requires Consistent(r) && Published(r) && step.op.DoReleaseSurface?
    ensures Published(Apply(r, step).state)
  {
  }

  lemma BookkeepingPublishes(r: Registry, step: Step)
    requires Consistent(r) && Published(r)
    requires step.op.DoInitializeDisplay? || step.op.DoSetWindowHandle? || step.op.DoAdoptActive? ||
             step.op.DoForgetActive? || step.op.DoResetRuntime? || step.op.DoReleaseAll?
    ensures Published(Apply(r, step).state) <==> !Misnames(r, step)
  {
  }

  /** Exactly those steps part the published handle from the active window. */
  lemma StepPublishesExactly(r: Registry, step: Step)
    requires Consistent(r) && Published(r)
    ensures Published(Apply(r, step).state) <==> !Misnames(r, step)
  {
    hide Published, MakeCurrent, Swap, Activate, Consistent, Strays;
    match step.op
    case DoMakeCurrent(_, _, _, _) => MakeCurrentPublishes(r, step);
    case DoSwap(_, _) => SwapPublishes(r, step);
    case DoCreateWindow(_, _) => CreateWindowPublishes(r, step);
    case DoCreatePbuffer(_, _, _) => CreatePbufferPublishes(r, step);
    case DoActivate(surface) => ActivatePublishes(r, surface, step.answers);
    case DoRegisterWindow(_, _) => RegisterPublishes(r, step);
    case DoRegisterPbuffer(_, _, _) => RegisterPublishes(r, step);
    case DoResize(_, _, _) => ExtentPublishes(r, step);
    case DoSetExtent(_, _, _, _) => ExtentPublishes(r, step);
    case DoReleaseSurface(_) => ReleasePublishes(r, step);
    case _ => BookkeepingPublishes(r, step);
  }

  ghost predicate NeverMisnames(r: Registry, steps: seq<Step>)
    decreases |steps|
  {
    steps == [] || (!Misnames(r, steps[0]) && NeverMisnames(Apply(r, steps[0]).state, steps[1..]))
  }

  ghost predicate AlwaysPublished(r: Registry, steps: seq<Step>)
    decreases |steps|
  {
    Published(r) && (steps == [] || AlwaysPublished(Apply(r, steps[0]).state, steps[1..]))
  }

  /** Throughout a run the handle in force is the active window's own if and only if no step of it is one
      of those. */
  lemma {:induction false} RunPublishesExactly(r: Registry, steps: seq<Step>)
    requires Consistent(r) && Published(r)
    ensures AlwaysPublished(r, steps) <==> NeverMisnames(r, steps)
    decreases |steps|
  {
    hide Apply, Consistent, Published, Misnames;
    if steps != [] {
      var next := Apply(r, steps[0]).state;
      StepKeepsConsistent(r, steps[0]);
      StepPublishesExactly(r, steps[0]);
      if Published(next) {
        RunPublishesExactly(next, steps[1..]);
      } else {
        assert !AlwaysPublished(next, steps[1..]);
      }
    }
  }

  // ---- a refused activation, concretely -------------------------------------------------------

  const FIRST := WindowHandle(Android, 3, 8, 8)
  const SECOND := WindowHandle(Android, 4, 8, 8)

  const REFUSED_RUN: seq<Step> := [
    Step(1, DoInitializeDisplay(9), RegistryLaws.WILLING),
    Step(1, DoCreateWindow(5, FIRST), RegistryLaws.WILLING),
    Step(1, DoRegisterWindow(6, SECOND), RegistryLaws.WILLING),
    Step(1, DoActivate(6), RegistryLaws.WILLING.(window := false))]

  lemma RefusedActivationParts()
    ensures var later := Run(INITIAL, REFUSED_RUN);
      IsActive(later, 5) && later.windowHandle == SECOND && !Published(later)
  {
    var s1 := Apply(INITIAL, REFUSED_RUN[0]).state;
    var s2 := Apply(s1, REFUSED_RUN[1]).state;
    assert IsActive(s2, 5) && s2.surfaces[5].window == FIRST && s2.surfaces[5].kind == Window;
    var s3 := Apply(s2, REFUSED_RUN[2]).state;
    assert s3.surfaces[6].window == SECOND && s3.surfaces[5] == s2.surfaces[5];
    var s4 := Apply(s3, REFUSED_RUN[3]).state;
    RegistryLaws.RunFour(INITIAL, REFUSED_RUN[0], REFUSED_RUN[1], REFUSED_RUN[2], REFUSED_RUN[3], []);
    RegistryLaws.RunNone(s4);
    assert REFUSED_RUN + [] == REFUSED_RUN;
  }
}
