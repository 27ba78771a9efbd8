/** What each operation of the surface registry answers, and which surface it asks the backend to bring up, told
  from the state before it and the backend's answers. */
module RegistryAnswers {
  import opened RegistryModel
  import opened RegistryInvariants
  import opened RegistryHistory

  /** `s` is up already, or the backend brings it up. */
  predicate ComesUp(r: Registry, s: Surface, answers: HookAnswers)
    requires s in r.surfaces
  {
    (r.hasActiveSurface && r.activeSurface == s) ||
    (if r.surfaces[s].kind == Window then answers.window else answers.pbuffer)
  }

  /** THE ANSWERS, exactly. */
  lemma AnswersExactly(r: Registry, step: Step)
    requires Consistent(r)
    ensures Apply(r, step).ok <==>
      match step.op
      case DoInitializeDisplay(dpy) => dpy != NONE
      case DoRegisterWindow(s, handle) =>
        r.displayInitialized && s != NONE && handle.backend != Unknown && handle.handle != NONE
      case DoRegisterPbuffer(s, w, h) => r.displayInitialized && s != NONE && w > 0 && h > 0
      case DoCreateWindow(s, handle) =>
        && r.displayInitialized && s != NONE && handle.backend != Unknown && handle.handle != NONE
        && ((r.hasActiveSurface && r.activeSurface == s) || step.answers.window)
      case DoCreatePbuffer(s, w, h) =>
        && r.displayInitialized && s != NONE && w > 0 && h > 0
        && ((r.hasActiveSurface && r.activeSurface == s) || step.answers.pbuffer)
      case DoResize(s, _, _) => s in r.surfaces
      case DoSetExtent(s, _, _, _) => s in r.surfaces
      case DoActivate(s) => s in r.surfaces && ComesUp(r, s, step.answers)
      case DoAdoptActive(s) => s in r.surfaces
      case DoMakeCurrent(dpy, draw, read, ctx) =>
        (draw == NONE && read == NONE && ctx == NONE) ||
        (&& r.displayInitialized && r.display == dpy && draw == read && draw in r.surfaces && ctx != NONE
         && ComesUp(r, draw, step.answers)
         && (step.answers.capabilities ||
             (r.capabilitiesInitialized &&
              ((r.hasActiveSurface && r.activeSurface == draw) || r.surfaces[draw].activated))))
      case DoSwap(dpy, draw) =>
        && r.displayInitialized && r.display == dpy && step.thread in r.currentThreads
        && r.currentThreads[step.thread].display == dpy && r.currentThreads[step.thread].draw == draw
        && draw in r.surfaces && ComesUp(r, draw, step.answers) && step.answers.present
      case _ => true
  {
    match step.op
    case DoMakeCurrent(dpy, draw, read, ctx) =>
      if !IsReleaseRequest(draw, read, ctx) {
        BindAcceptedExactly(r, step.thread, dpy, draw, read, ctx, step.answers);
      }
      ApplyBinds(r, step);
      hide MakeCurrent;
    case DoSwap(_, _) => hide Activate; ActivateKeeps(r, step.op.draw, step.answers);
    case _ =>
  }

  /** The step gets as far as asking for `s`: it is to be brought up, is not up already, and is registered by
      then. */
  ghost predicate Asks(r: Registry, step: Step, s: Surface) {
    !(r.hasActiveSurface && r.activeSurface == s) &&
    match step.op
    case DoActivate(surface) => surface == s && s in r.surfaces
    case DoCreateWindow(surface, handle) =>
      surface == s && r.displayInitialized && s != NONE && handle.backend != Unknown && handle.handle != NONE
    case DoCreatePbuffer(surface, w, h) => surface == s && r.displayInitialized && s != NONE && w > 0 && h > 0
    case DoMakeCurrent(dpy, draw, read, ctx) =>
      draw == s && read == s && s in r.surfaces && r.displayInitialized && r.display == dpy
    case DoSwap(dpy, draw) =>
      && draw == s && s in r.surfaces && r.displayInitialized && r.display == dpy
      && step.thread in r.currentThreads
      && r.currentThreads[step.thread].display == dpy && r.currentThreads[step.thread].draw == s
    case _ => false
  }

  /** WHAT IS ASKED, exactly: a step asks for a surface if and only if it gets that far; it asks before anything
      else, once, and with what the surface's own record - the new one, if it registers it - says. */
  lemma AsksExactly(r: Registry, step: Step)
    requires Consistent(r)
    ensures var calls := Observe(r, step).calls;
      && (forall i :: 0 < i < |calls| ==> !IsInit(calls[i]))
      && (forall s :: Asks(r, step, s) <==> calls != [] && IsInit(calls[0]) && calls[0].surface == s)
    ensures var o := Observe(r, step);
      o.calls != [] && IsInit(o.calls[0]) ==>
        var s, surfaces := o.calls[0].surface, NoteRegistration(r, o).surfaces;
        && s in surfaces
        && o.calls[0] == if surfaces[s].kind == Window then InitWindowSurface(s, surfaces[s].window)
                         else InitPbufferSurface(s, surfaces[s].width, surfaces[s].height)
  {
    hide Apply, Note, NoteRegistration, NoteCalls, NewCalls, Consistent, Head;
    EveryStepIsNoted(r, step);
    HeadIsOne(r, step);
    var calls, head := NewCalls(r, step), Head(r, step);
    assert calls == head + calls[|head|..];
    AsksAreHead(r, step);
    if head != [] {
      HeadIsRegistered(r, step);
      assert calls[0] == head[0];
    } else if calls != [] {
      assert calls[0] == calls[0..][0];
    }
  }

  lemma AsksAreHead(r: Registry, step: Step)
    requires Consistent(r)
    ensures forall s :: Asks(r, step, s) <==>
      Head(r, step) != [] && IsInit(Head(r, step)[0]) && Head(r, step)[0].surface == s
  {
  }
}
