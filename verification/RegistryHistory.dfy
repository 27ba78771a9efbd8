/** The registry told from outside: every field of it is what an observer writes down who sees each
  operation's arguments and answer and the hook calls it makes - and none of the guards that decide them. */
module RegistryHistory {
  import opened Wrappers
  import opened RegistryModel
  import opened RegistryInvariants
  import opened RegistryRuns
  import RegistryLaws

  /** What is seen of one operation: who called what, what the backend's hooks answer, what the operation
      answered, and the hook calls it made. */
  datatype Observation = Observation(step: Step, ok: bool, calls: seq<HookCall>)

  // ---- the observer -------------------------------------------------------------------------

  /** An accepted registration: the surface's record is a new one. A create that is refused was accepted as a
      registration when it went on to ask the backend. */
  predicate Registered(o: Observation, s: Surface) {
    match o.step.op
    case DoRegisterWindow(surface, _) => o.ok && s == surface
    case DoRegisterPbuffer(surface, _, _) => o.ok && s == surface
    case DoCreateWindow(surface, _) => (o.ok || o.calls != []) && s == surface
    case DoCreatePbuffer(surface, _, _) => (o.ok || o.calls != []) && s == surface
    case _ => false
  }

  /** The backend is asked to bring `s` up and does. */
  predicate BringsUp(o: Observation, s: Surface) {
    exists call :: call in o.calls &&
      ((call.InitWindowSurface? && call.surface == s && o.step.answers.window) ||
       (call.InitPbufferSurface? && call.surface == s && o.step.answers.pbuffer))
  }

  /** A new registration, as the observer writes it down. */
  function NoteRegistration(p: Registry, o: Observation): Registry {
    match o.step.op
    case DoRegisterWindow(s, handle) => if Registered(o, s) then NoteWindow(p, s, handle) else p
    case DoCreateWindow(s, handle) => if Registered(o, s) then NoteWindow(p, s, handle) else p
    case DoRegisterPbuffer(s, w, h) => if Registered(o, s) then NotePbuffer(p, s, w, h) else p
    case DoCreatePbuffer(s, w, h) => if Registered(o, s) then NotePbuffer(p, s, w, h) else p
    case _ => p
  }

  function NoteWindow(p: Registry, s: Surface, handle: WindowHandle): Registry {
    p.(surfaces := p.surfaces[s := SurfaceState(
      kind := Window, destroyPending := false, activated := false, window := handle,
      width := ToInt32(if handle.width == 0 then 1 else handle.width),
      height := ToInt32(if handle.height == 0 then 1 else handle.height))])
  }

  function NotePbuffer(p: Registry, s: Surface, w: Int32, h: Int32): Registry {
    p.(surfaces := p.surfaces[s := SurfaceState(
      kind := Pbuffer, destroyPending := false, activated := false, window := NO_WINDOW, width := w, height := h)])
  }

  /** `s` came up: it is the active one, and if it never did before a probe is due. */
  function NoteUp(p: Registry, s: Surface, kind: SurfaceKind): Registry {
    if s !in p.surfaces then p
    else
      p.(activeSurface := s, hasActiveSurface := true, activeSurfaceKind := kind,
         surfaces := p.surfaces[s := p.surfaces[s].(activated := true)],
         capabilitiesInitialized := if p.surfaces[s].activated then p.capabilitiesInitialized else false)
  }

  function NoteNothingActive(p: Registry): Registry {
    p.(activeSurface := NONE, hasActiveSurface := false, activeSurfaceKind := NoKind, windowHandle := NO_WINDOW)
  }

  /** One hook call, as the observer writes it down. */
  function NoteCall(p: Registry, call: HookCall, answers: HookAnswers): Registry {
    var heard := p.(hookCalls := p.hookCalls + [call]);
    match call
    case InitWindowSurface(s, window) =>
      var asked := heard.(activatingSurface := s, windowHandle := window);
      if answers.window then NoteUp(asked, s, Window) else asked
    case InitPbufferSurface(s, _, _) =>
      var asked := heard.(activatingSurface := s);
      if answers.pbuffer then NoteUp(asked, s, Pbuffer) else asked
    case InitCapabilities => heard.(capabilitiesInitialized := answers.capabilities)
    case OnSurfaceReleased(_) => NoteNothingActive(heard)
    case OnSurfaceForgotten(s) => heard.(surfaces := heard.surfaces - {s})
    case GetPresentFunction => heard
    case Present => heard
  }

  function NoteCalls(p: Registry, calls: seq<HookCall>, answers: HookAnswers): Registry {
    if calls == [] then p
    else NoteCall(NoteCalls(p, calls[..|calls| - 1], answers), calls[|calls| - 1], answers)
  }

  /** What the operation itself moved, told from its answer. */
  function NoteOperation(p: Registry, o: Observation): Registry {
    match o.step.op
    case DoInitializeDisplay(dpy) => if o.ok then p.(display := dpy, displayInitialized := true) else p
    case DoResize(s, w, h) =>
      if !o.ok || s !in p.surfaces then p
      else
        var window := p.surfaces[s].window.(width := w, height := h);
        var shown := if p.activeSurface == s then p.windowHandle.(width := w, height := h) else p.windowHandle;
        NoteExtent(p, s, window, shown)
    case DoSetExtent(s, w, h, native) =>
      if !o.ok || s !in p.surfaces then p
      else
        var handle := if native == NONE then p.surfaces[s].window.handle else native;
        var window := WindowHandle(p.surfaces[s].window.backend, handle, w, h);
        NoteExtent(p, s, window, if p.activeSurface == s then window else p.windowHandle)
    case DoSetWindowHandle(handle) => p.(windowHandle := handle)
    case DoAdoptActive(s) =>
      if !o.ok || s !in p.surfaces then p
      else
        var kind := p.surfaces[s].kind;
        p.(activeSurface := s, hasActiveSurface := true, activeSurfaceKind := kind,
           windowHandle := if kind == Window then p.surfaces[s].window else p.windowHandle)
    case DoForgetActive => NoteNothingActive(p)
    case DoMakeCurrent(dpy, draw, read, ctx) =>
      if !o.ok then p
      else if draw == NONE && read == NONE && ctx == NONE
      then p.(currentThreads := p.currentThreads - {o.step.thread})
      else p.(currentThreads := p.currentThreads[o.step.thread := CurrentState(dpy, draw, read, ctx)])
    case DoReleaseSurface(s) =>
      if o.calls != [] || s !in p.surfaces then p
      else p.(surfaces := p.surfaces[s := p.surfaces[s].(destroyPending := true)])
    case DoResetRuntime => NoteNothingActive(p).(capabilitiesInitialized := false, currentThreads := map[])
    case DoReleaseAll =>
      NoteNothingActive(p).(capabilitiesInitialized := false, currentThreads := map[], surfaces := map[],
                            display := NONE, displayInitialized := false)
    case _ => p
  }

  function NoteExtent(p: Registry, s: Surface, window: WindowHandle, shown: WindowHandle): Registry
    requires s in p.surfaces
  {
    p.(surfaces := p.surfaces[s := p.surfaces[s].(
         window := window,
         width := ToInt32(if window.width == 0 then 1 else window.width),
         height := ToInt32(if window.height == 0 then 1 else window.height))],
       windowHandle := shown)
  }

  /** The observer's picture of the registry after one more operation. */
  function Note(p: Registry, o: Observation): Registry {
    NoteOperation(NoteCalls(NoteRegistration(p, o), o.calls, o.step.answers), o)
  }

  // ---- what is observed ---------------------------------------------------------------------

  /** The hook calls a step makes. */
  function NewCalls(r: Registry, step: Step): seq<HookCall> {
    var later := Apply(r, step).state.hookCalls;
    if |r.hookCalls| <= |later| then later[|r.hookCalls|..] else []
  }

  function Observe(r: Registry, step: Step): Observation {
    Observation(step, Apply(r, step).ok, NewCalls(r, step))
  }

  lemma CallsAre(r: Registry, step: Step, calls: seq<HookCall>)
    requires Apply(r, step).state.hookCalls == r.hookCalls + calls
    ensures NewCalls(r, step) == calls
  {
  }

  // ---- the stages of an operation -----------------------------------------------------------

  lemma NoteNone(p: Registry, answers: HookAnswers)
    ensures NoteCalls(p, [], answers) == p
  {
  }

  lemma NoteOne(p: Registry, call: HookCall, answers: HookAnswers)
    ensures NoteCalls(p, [call], answers) == NoteCall(p, call, answers)
  {
    NoteNone(p, answers);
    assert [call][..0] == [];
  }

  lemma {:induction false} NoteMore(p: Registry, calls: seq<HookCall>, more: seq<HookCall>, answers: HookAnswers)
    ensures NoteCalls(p, calls + more, answers) == NoteCalls(NoteCalls(p, calls, answers), more, answers)
    decreases |more|
  {
    hide NoteCall;
    if more == [] {
      assert calls + more == calls;
    } else {
      var last := |more| - 1;
      NoteMore(p, calls, more[..last], answers);
      assert (calls + more)[..|calls + more| - 1] == calls + more[..last];
    }
  }

  /** The calls an activation makes. */
  function UpCalls(r: Registry, s: Surface): seq<HookCall> {
    if s !in r.surfaces || IsActive(r, s) then [] else InitCalls(s, r.surfaces[s])
  }

  lemma ActivateIsNoted(r: Registry, s: Surface, answers: HookAnswers)
    requires Consistent(r)
    ensures Activate(r, s, answers).state == NoteCalls(r, UpCalls(r, s), answers)
    ensures Activate(r, s, answers).state.hookCalls == r.hookCalls + UpCalls(r, s)
  {
    hide NoteCalls;
    NoteNone(r, answers);
    if s in r.surfaces && !IsActive(r, s) {
      NoteOne(r, InitCalls(s, r.surfaces[s])[0], answers);
    }
  }

  function ProbeCalls(r: Registry): seq<HookCall> {
    if r.capabilitiesInitialized then [] else [InitCapabilities]
  }

  lemma ProbeIsNoted(r: Registry, answers: HookAnswers)
    ensures Probe(r, answers).state == NoteCalls(r, ProbeCalls(r), answers)
    ensures Probe(r, answers).state.hookCalls == r.hookCalls + ProbeCalls(r)
  {
    hide NoteCalls;
    NoteNone(r, answers);
    NoteOne(r, InitCapabilities, answers);
  }

  lemma DropIsNoted(r: Registry, s: Surface, answers: HookAnswers)
    requires r.activeSurface == NONE || r.hasActiveSurface
    ensures Drop(r, s) == NoteCalls(r, DropCalls(r, s), answers)
    ensures Drop(r, s).hookCalls == r.hookCalls + DropCalls(r, s)
  {
    hide NoteCalls;
    if r.activeSurface == s {
      NoteOne(r, OnSurfaceReleased(s), answers);
      var released := NoteCall(r, OnSurfaceReleased(s), answers);
      NoteOne(released, OnSurfaceForgotten(s), answers);
      NoteMore(r, [OnSurfaceReleased(s)], [OnSurfaceForgotten(s)], answers);
      assert r.hookCalls + [OnSurfaceReleased(s)] + [OnSurfaceForgotten(s)] == r.hookCalls + DropCalls(r, s);
    } else {
      assert DropCalls(r, s) == [OnSurfaceForgotten(s)];
      NoteOne(r, OnSurfaceForgotten(s), answers);
    }
  }

  /** No hook call moves a binding. */
  lemma {:induction false} NoteBesideThreads(p: Registry, threads: map<ThreadId, CurrentState>, calls: seq<HookCall>,
                                             answers: HookAnswers)
    ensures NoteCalls(p.(currentThreads := threads), calls, answers) ==
            NoteCalls(p, calls, answers).(currentThreads := threads)
    decreases |calls|
  {
    hide NoteCall;
    if calls != [] {
      var before := calls[..|calls| - 1];
      NoteBesideThreads(p, threads, before, answers);
      NoteOneBesideThreads(NoteCalls(p, before, answers), threads, calls[|calls| - 1], answers);
    }
  }

  lemma NoteOneBesideThreads(p: Registry, threads: map<ThreadId, CurrentState>, call: HookCall, answers: HookAnswers)
    ensures NoteCall(p.(currentThreads := threads), call, answers) ==
            NoteCall(p, call, answers).(currentThreads := threads)
  {
    hide NoteUp;
    var heard := p.(hookCalls := p.hookCalls + [call]);
    match call
    case InitWindowSurface(s, window) =>
      NoteUpBesideThreads(heard.(activatingSurface := s, windowHandle := window), threads, s, Window);
    case InitPbufferSurface(s, _, _) => NoteUpBesideThreads(heard.(activatingSurface := s), threads, s, Pbuffer);
    case _ =>
  }

  lemma NoteUpBesideThreads(p: Registry, threads: map<ThreadId, CurrentState>, s: Surface, kind: SurfaceKind)
    ensures NoteUp(p.(currentThreads := threads), s, kind) == NoteUp(p, s, kind).(currentThreads := threads)
  {
  }

  /** The notices of the surface that goes with this thread's binding, if one does. */
  ghost function LetGoCalls(r: Registry, thread: ThreadId): seq<HookCall> {
    if thread in r.currentThreads && DiesWith(r, thread, r.currentThreads[thread].draw)
    then DropCalls(r, r.currentThreads[thread].draw)
    else []
  }

  lemma LettingGoIsNoted(r: Registry, thread: ThreadId, answers: HookAnswers)
    requires Consistent(r)
    ensures ReleaseThread(r, thread) ==
            NoteCalls(r, LetGoCalls(r, thread), answers).(currentThreads := r.currentThreads - {thread})
    ensures ReleaseThread(r, thread).hookCalls == r.hookCalls + LetGoCalls(r, thread)
  {
    hide NoteCalls, ReleaseThread, Drop, DropCalls;
    NoteNone(r, answers);
    if thread in r.currentThreads {
      ReleaseThreadCollectsOnce(r, thread);
      var draw := r.currentThreads[thread].draw;
      var left := r.(currentThreads := r.currentThreads - {thread});
      HeldAfterLeaving(r, thread, draw);
      if DiesWith(r, thread, draw) {
        DropIsNoted(left, draw, answers);
        SameDropCalls(r, left, draw);
        NoteBesideThreads(r, r.currentThreads - {thread}, DropCalls(r, draw), answers);
      }
    } else {
      NoBinding(r, thread);
    }
  }

  lemma SameDropCalls(r: Registry, left: Registry, surface: Surface)
    requires r.activeSurface == left.activeSurface
    ensures DropCalls(r, surface) == DropCalls(left, surface)
  {
  }

  lemma NoBinding(r: Registry, thread: ThreadId)
    requires thread !in r.currentThreads
    ensures ReleaseThread(r, thread) == r && r.currentThreads - {thread} == r.currentThreads
  {
  }

  // ---- every operation is noted -------------------------------------------------------------

  predicate IsInit(call: HookCall) {
    call.InitWindowSurface? || call.InitPbufferSurface?
  }

  predicate NoInit(calls: seq<HookCall>) {
    forall i :: 0 <= i < |calls| ==> !IsInit(calls[i])
  }

  /** The calls that bring a surface up, which a step makes before all others. */
  function Head(r: Registry, step: Step): seq<HookCall> {
    match step.op
    case DoActivate(s) => UpCalls(r, s)
    case DoCreateWindow(s, handle) =>
      if WindowAccepted(r, s, handle) then UpCalls(RegisterWindow(r, s, handle).state, s) else []
    case DoCreatePbuffer(s, w, h) =>
      if PbufferAccepted(r, s, w, h) then UpCalls(RegisterPbuffer(r, s, w, h).state, s) else []
    case DoMakeCurrent(dpy, draw, read, ctx) =>
      if !IsReleaseRequest(draw, read, ctx) && DisplayIs(r, dpy) && draw == read then UpCalls(r, draw) else []
    case DoSwap(dpy, draw) => if MaySwap(r, step.thread, dpy, draw) then UpCalls(r, draw) else []
    case _ => []
  }

  /** The state after the step is the observer's; to bring a surface up is what was asked first; and the probe
      is asked for only when it is due by then. */
  ghost predicate Noted(r: Registry, step: Step) {
    && Apply(r, step).state == Note(r, Observe(r, step))
    && Head(r, step) <= NewCalls(r, step)
    && var rest := NewCalls(r, step)[|Head(r, step)|..];
    && NoInit(rest)
    && (InitCapabilities in rest ==>
          !NoteCalls(NoteRegistration(r, Observe(r, step)), Head(r, step), step.answers).capabilitiesInitialized)
  }

  /** What makes a step noted: its calls, noted one by one after its registration and before its own effect. */
  lemma StepIsNoted(r: Registry, step: Step, rest: seq<HookCall>)
    requires NoInit(rest)
    requires var out, calls := Apply(r, step), Head(r, step) + rest;
      && out.state.hookCalls == r.hookCalls + calls
      && var o := Observation(step, out.ok, calls);
      && out.state == NoteOperation(NoteCalls(NoteRegistration(r, o), calls, step.answers), o)
      && (InitCapabilities in rest ==>
            !NoteCalls(NoteRegistration(r, o), Head(r, step), step.answers).capabilitiesInitialized)
    ensures Noted(r, step)
  {
    hide Apply, NoteOperation, NoteRegistration, NoteCalls, Head;
    CallsAre(r, step, Head(r, step) + rest);
  }

  lemma UpOnly(r: Registry, s: Surface)
    ensures UpCalls(r, s) + [] == UpCalls(r, s) && (s !in r.surfaces ==> UpCalls(r, s) == [])
  {
  }

  lemma RestsAskNothing(r: Registry, thread: ThreadId, surface: Surface)
    ensures NoInit(ProbeCalls(r)) && NoInit(LetGoCalls(r, thread)) && NoInit(DropCalls(r, surface))
    ensures InitCapabilities in ProbeCalls(r) <==> !r.capabilitiesInitialized
    ensures InitCapabilities !in LetGoCalls(r, thread) && InitCapabilities !in DropCalls(r, surface)
  {
  }

  lemma ReleaseRequestIsNoted(r: Registry, step: Step)
    requires Consistent(r) && step.op.DoMakeCurrent? && IsReleaseRequest(step.op.draw, step.op.read, step.op.ctx)
    ensures Noted(r, step)
  {
    hide NoteCalls, ReleaseThread, LetGoCalls;
    ReleaseRequestReleases(r, step);
    LettingGoIsNoted(r, step.thread, step.answers);
    CallsKeepThreads(r, LetGoCalls(r, step.thread), step.answers);
    RestsAskNothing(r, step.thread, NONE);
    assert [] + LetGoCalls(r, step.thread) == LetGoCalls(r, step.thread);
    StepIsNoted(r, step, LetGoCalls(r, step.thread));
  }

  lemma {:induction false} CallsKeepThreads(p: Registry, calls: seq<HookCall>, answers: HookAnswers)
    ensures NoteCalls(p, calls, answers).currentThreads == p.currentThreads
    decreases |calls|
  {
    if calls != [] {
      CallsKeepThreads(p, calls[..|calls| - 1], answers);
    }
  }

  lemma BindIsNoted(r: Registry, step: Step)
    requires Consistent(r) && step.op.DoMakeCurrent? && !IsReleaseRequest(step.op.draw, step.op.read, step.op.ctx)
    ensures Noted(r, step)
  {
    hide NoteCalls, ReleaseThread, LetGoCalls, Activate, Probe, MakeCurrent, Consistent, BindAccepted, UpCalls,
      ProbeCalls, IsReleaseRequest;
    var DoMakeCurrent(dpy, draw, read, ctx) := step.op;
    var answers := step.answers;
    MakeCurrentStages(r, step.thread, dpy, draw, read, ctx, answers);
    NoteNone(r, answers);
    if !DisplayIs(r, dpy) || draw != read || draw !in r.surfaces {
      UpOnly(r, draw);
      StepIsNoted(r, step, []);
    } else {
      ActivateIsNoted(r, draw, answers);
      ActivateKeeps(r, draw, answers);
      var up := Activate(r, draw, answers);
      if !up.ok || ctx == NONE {
        UpOnly(r, draw);
        StepIsNoted(r, step, []);
      } else {
        BoundIsNoted(r, step, up.state);
      }
    }
  }

  /** The bind has its surface up. */
  ghost predicate HasUp(r: Registry, step: Step, up: Registry) {
    && Consistent(up) && step.op.DoMakeCurrent? && up.currentThreads == r.currentThreads
    && !IsReleaseRequest(step.op.draw, step.op.read, step.op.ctx)
    && up == NoteCalls(r, Head(r, step), step.answers)
    && up.hookCalls == r.hookCalls + Head(r, step)
  }

  lemma BoundIsNoted(r: Registry, step: Step, up: Registry)
    requires HasUp(r, step, up)
    requires Apply(r, step) ==
      var probed := Probe(up, step.answers);
      if !probed.ok then probed
      else
        var left := ReleaseThread(probed.state, step.thread);
        var binding := CurrentState(step.op.dpy, step.op.draw, step.op.read, step.op.ctx);
        Outcome(left.(currentThreads := left.currentThreads[step.thread := binding]), true)
    ensures Noted(r, step)
  {
    hide HasUp, ReleaseThread, Probe, Apply, Noted, Consistent;
    var probed := Probe(up, step.answers);
    if !probed.ok {
      RefusedProbeIsNoted(r, step, up);
    } else {
      AcceptedBindIsNoted(r, step, up);
    }
  }

  lemma RefusedProbeIsNoted(r: Registry, step: Step, up: Registry)
    requires HasUp(r, step, up) && Apply(r, step) == Probe(up, step.answers) && !Probe(up, step.answers).ok
    ensures Noted(r, step)
  {
    hide NoteCalls, Head, Probe, Consistent, ProbeCalls, Apply;
    ProbeIsNoted(up, step.answers);
    NoteMore(r, Head(r, step), ProbeCalls(up), step.answers);
    RestsAskNothing(up, step.thread, NONE);
    StepIsNoted(r, step, ProbeCalls(up));
  }

  lemma AcceptedBindIsNoted(r: Registry, step: Step, up: Registry)
    requires HasUp(r, step, up) && Probe(up, step.answers).ok
    requires Apply(r, step) ==
      var left := ReleaseThread(Probe(up, step.answers).state, step.thread);
      var binding := CurrentState(step.op.dpy, step.op.draw, step.op.read, step.op.ctx);
      Outcome(left.(currentThreads := left.currentThreads[step.thread := binding]), true)
    ensures Noted(r, step)
  {
    hide NoteCalls, Head, ReleaseThread, LetGoCalls, Probe, Consistent, ProbeCalls, Apply, Noted;
    var answers, probed := step.answers, Probe(up, step.answers).state;
    var probeCalls, letGo := ProbeCalls(up), LetGoCalls(probed, step.thread);
    ProbeIsNoted(up, answers);
    ProbeKeeps(up, answers);
    LettingGoIsNoted(probed, step.thread, answers);
    NoteMore(up, probeCalls, letGo, answers);
    NoteMore(r, Head(r, step), probeCalls + letGo, answers);
    CallsKeepThreads(probed, letGo, answers);
    RestsAskNothing(up, step.thread, NONE);
    RestsAskNothing(probed, step.thread, NONE);
    assert r.hookCalls + Head(r, step) + probeCalls + letGo == r.hookCalls + (Head(r, step) + (probeCalls + letGo));
    StepIsNoted(r, step, probeCalls + letGo);
  }

  lemma ProbeKeeps(r: Registry, answers: HookAnswers)
    requires Consistent(r)
    ensures Consistent(Probe(r, answers).state) && Probe(r, answers).state.currentThreads == r.currentThreads
  {
  }

  lemma SwapIsNoted(r: Registry, step: Step)
    requires Consistent(r) && step.op.DoSwap?
    ensures Noted(r, step)
  {
    hide NoteCalls, Activate, UpCalls;
    var draw, answers := step.op.draw, step.answers;
    NoteNone(r, answers);
    if !MaySwap(r, step.thread, step.op.dpy, draw) {
      StepIsNoted(r, step, []);
    } else {
      ActivateIsNoted(r, draw, answers);
      ActivateAgain(r, draw, answers);
      var up := Activate(r, draw, answers);
      if !up.ok {
        UpOnly(r, draw);
        StepIsNoted(r, step, []);
      } else {
        var calls := if answers.present then [GetPresentFunction, Present] else [GetPresentFunction];
        PresentIsNoted(up.state, answers, calls);
        NoteMore(r, UpCalls(r, draw), calls, answers);
        StepIsNoted(r, step, calls);
      }
    }
  }

  lemma ActivateAgain(r: Registry, surface: Surface, answers: HookAnswers)
    requires surface in r.surfaces
    ensures IsActive(r, surface) ==> Activate(r, surface, answers) == Outcome(r, true)
  {
  }

  lemma PresentIsNoted(r: Registry, answers: HookAnswers, calls: seq<HookCall>)
    requires calls == [GetPresentFunction] || calls == [GetPresentFunction, Present]
    ensures NoteCalls(r, calls, answers) == r.(hookCalls := r.hookCalls + calls)
  {
    hide NoteCalls;
    NoteOne(r, GetPresentFunction, answers);
    if |calls| == 2 {
      NoteMore(r, [GetPresentFunction], [Present], answers);
      NoteOne(r.(hookCalls := r.hookCalls + [GetPresentFunction]), Present, answers);
      assert calls == [GetPresentFunction] + [Present];
      assert r.hookCalls + [GetPresentFunction] + [Present] == r.hookCalls + calls;
    }
  }

  lemma ActivationIsNoted(r: Registry, step: Step)
    requires Consistent(r) && step.op.DoActivate?
    ensures Noted(r, step)
  {
    hide NoteCalls, Activate, UpCalls;
    ActivateIsNoted(r, step.op.surface, step.answers);
    UpOnly(r, step.op.surface);
    StepIsNoted(r, step, []);
  }

  lemma CreateIsNoted(r: Registry, step: Step)
    requires Consistent(r) && (step.op.DoCreateWindow? || step.op.DoCreatePbuffer?)
    ensures Noted(r, step)
  {
    hide NoteCalls, Activate, UpCalls, Consistent;
    var s := step.op.surface;
    var first := if step.op.DoCreateWindow? then RegisterWindow(r, s, step.op.handle)
                 else RegisterPbuffer(r, s, step.op.w, step.op.h);
    NoteNone(r, step.answers);
    if !first.ok {
      StepIsNoted(r, step, []);
    } else {
      CreatedIsConsistent(r, step);
      ActivateIsNoted(first.state, s, step.answers);
      ActivateKeeps(first.state, s, step.answers);
      AskedOrAlreadyUp(first.state, s, step.answers);
      UpOnly(first.state, s);
      StepIsNoted(r, step, []);
    }
  }

  lemma CreatedIsConsistent(r: Registry, step: Step)
    requires Consistent(r)
    ensures step.op.DoCreateWindow? ==> Consistent(RegisterWindow(r, step.op.surface, step.op.handle).state)
    ensures step.op.DoCreatePbuffer? ==> Consistent(RegisterPbuffer(r, step.op.surface, step.op.w, step.op.h).state)
  {
    if step.op.DoCreateWindow? {
      RegisterWindowKeepsConsistent(r, step.op.surface, step.op.handle);
    } else if step.op.DoCreatePbuffer? {
      RegisterPbufferKeepsConsistent(r, step.op.surface, step.op.w, step.op.h);
    }
  }

  lemma AskedOrAlreadyUp(r: Registry, s: Surface, answers: HookAnswers)
    requires s in r.surfaces && r.surfaces[s].kind != NoKind
    ensures Activate(r, s, answers).ok || UpCalls(r, s) != []
  {
  }

  lemma RegisterIsNoted(r: Registry, step: Step)
    requires step.op.DoRegisterWindow? || step.op.DoRegisterPbuffer?
    ensures Noted(r, step)
  {
    hide NoteCalls;
    NoteNone(r, step.answers);
    NoteNone(Apply(r, step).state, step.answers);
    StepIsNoted(r, step, []);
  }

  lemma ReleaseSurfaceIsNoted(r: Registry, step: Step)
    requires Consistent(r) && step.op.DoReleaseSurface?
    ensures Noted(r, step)
  {
    hide NoteCalls, Drop;
    var s := step.op.surface;
    NoteNone(r, step.answers);
    if s !in r.surfaces || IsCurrent(r, s) {
      StepIsNoted(r, step, []);
    } else {
      DropIsNoted(r, s, step.answers);
      RestsAskNothing(r, step.thread, s);
      assert [] + DropCalls(r, s) == DropCalls(r, s);
      StepIsNoted(r, step, DropCalls(r, s));
    }
  }

  lemma ExtentIsNoted(r: Registry, step: Step)
    requires Consistent(r) && (step.op.DoResize? || step.op.DoSetExtent?)
    ensures Noted(r, step)
  {
    hide NoteCalls;
    NoteNone(r, step.answers);
    StepIsNoted(r, step, []);
  }

  lemma BookkeepingIsNoted(r: Registry, step: Step)
    requires step.op.DoInitializeDisplay? || step.op.DoSetWindowHandle? || step.op.DoAdoptActive? ||
             step.op.DoForgetActive? || step.op.DoResetRuntime? || step.op.DoReleaseAll?
    ensures Noted(r, step)
  {
    hide NoteCalls;
    NoteNone(r, step.answers);
    StepIsNoted(r, step, []);
  }

  /** EVERY STEP is what the observer notes: given the answers and the calls, nothing else decides the state. */
  lemma StepIsWhatIsSeen(r: Registry, step: Step)
    requires Consistent(r)
    ensures Apply(r, step).state == Note(r, Observe(r, step))
  {
    hide Note, Observe, Apply, Consistent, Head;
    EveryStepIsNoted(r, step);
  }

  lemma EveryStepIsNoted(r: Registry, step: Step)
    requires Consistent(r)
    ensures Noted(r, step)
  {
    hide Noted, Apply, Consistent;
    match step.op
    case DoMakeCurrent(_, draw, read, ctx) =>
      if IsReleaseRequest(draw, read, ctx) {
        ReleaseRequestIsNoted(r, step);
      } else {
        BindIsNoted(r, step);
      }
    case DoSwap(_, _) => SwapIsNoted(r, step);
    case DoActivate(_) => ActivationIsNoted(r, step);
    case DoCreateWindow(_, _) => CreateIsNoted(r, step);
    case DoCreatePbuffer(_, _, _) => CreateIsNoted(r, step);
    case DoRegisterWindow(_, _) => RegisterIsNoted(r, step);
    case DoRegisterPbuffer(_, _, _) => RegisterIsNoted(r, step);
    case DoReleaseSurface(_) => ReleaseSurfaceIsNoted(r, step);
    case DoResize(_, _, _) => ExtentIsNoted(r, step);
    case DoSetExtent(_, _, _, _) => ExtentIsNoted(r, step);
    case _ => BookkeepingIsNoted(r, step);
  }

  // ---- whole runs ---------------------------------------------------------------------------

  type Transcript = seq<Observation>

  /** What is seen of a run. */
  function Seen(r: Registry, steps: seq<Step>): (t: Transcript)
    ensures |t| == |steps|
    decreases |steps|
  {
    if steps == [] then []
    else
      var before := steps[..|steps| - 1];
      Seen(r, before) + [Observe(Run(r, before), steps[|steps| - 1])]
  }

  function Pictured(r: Registry, t: Transcript): Registry {
    if t == [] then r else Note(Pictured(r, t[..|t| - 1]), t[|t| - 1])
  }

  lemma {:induction false} RunLast(r: Registry, steps: seq<Step>)
    requires steps != []
    ensures Run(r, steps) == Apply(Run(r, steps[..|steps| - 1]), steps[|steps| - 1]).state
    decreases |steps|
  {
    hide Apply;
    if |steps| > 1 {
      RunLast(Apply(r, steps[0]).state, steps[1..]);
      assert steps[1..][..|steps| - 2] == steps[..|steps| - 1][1..];
    } else {
      assert steps[1..] == [] && steps[..0] == [];
    }
  }

  /** THE REGISTRY, FROM OUTSIDE: after any interleaving its whole state is the picture of an observer who saw
      only arguments, answers and hook calls. */
  lemma {:induction false} RunIsWhatIsSeen(r: Registry, steps: seq<Step>)
    requires Consistent(r)
    ensures Run(r, steps) == Pictured(r, Seen(r, steps))
    decreases |steps|
  {
    hide Apply, Consistent, Note, Observe;
    if steps != [] {
      var before := steps[..|steps| - 1];
      RunIsWhatIsSeen(r, before);
      RunKeepsConsistent(r, before);
      RunLast(r, steps);
      StepIsWhatIsSeen(Run(r, before), steps[|steps| - 1]);
      assert Seen(r, steps)[..|steps| - 1] == Seen(r, before);
    }
  }

  // ---- what the two capability flags remember -------------------------------------------------

  predicate Resets(o: Observation) {
    o.step.op.DoResetRuntime? || o.step.op.DoReleaseAll?
  }

  /** The backend has brought `s` up since it was last registered. */
  ghost predicate UpSinceRegistered(t: Transcript, s: Surface) {
    exists i :: 0 <= i < |t| && BringsUp(t[i], s) && forall j :: i < j < |t| ==> !Registered(t[j], s)
  }

  /** Operation `j` is a first activation: it brings up a surface that has not come up since registered. */
  ghost predicate FirstActivation(t: Transcript, j: nat) {
    j < |t| && exists s :: BringsUp(t[j], s) && (Registered(t[j], s) || !UpSinceRegistered(t[..j], s))
  }

  predicate Probes(o: Observation) {
    InitCapabilities in o.calls && o.step.answers.capabilities
  }

  /** A probe has succeeded since the last reset and the last first activation. */
  ghost predicate ProbedSince(t: Transcript) {
    exists i :: 0 <= i < |t| && Probes(t[i]) && forall j: nat :: i < j < |t| ==> !Resets(t[j]) && !FirstActivation(t, j)
  }

  /** The flags say what they are for. */
  ghost predicate FlagsTell(r: Registry, t: Transcript) {
    && (forall s :: s in r.surfaces ==> (r.surfaces[s].activated <==> UpSinceRegistered(t, s)))
    && (r.capabilitiesInitialized <==> ProbedSince(t))
  }

  lemma UpOneMore(t: Transcript, o: Observation, s: Surface)
    ensures UpSinceRegistered(t + [o], s) <==> BringsUp(o, s) || (UpSinceRegistered(t, s) && !Registered(o, s))
  {
    hide BringsUp, Registered;
    var more := t + [o];
    if i :| 0 <= i < |more| && BringsUp(more[i], s) && forall j :: i < j < |more| ==> !Registered(more[j], s) {
      if i < |t| {
        assert BringsUp(t[i], s) && !Registered(more[|t|], s);
        forall j | i < j < |t| ensures !Registered(t[j], s) {
          assert more[j] == t[j];
        }
      } else {
        assert more[i] == o;
      }
    }
    if UpSinceRegistered(t, s) && !Registered(o, s) {
      var i :| 0 <= i < |t| && BringsUp(t[i], s) && forall j :: i < j < |t| ==> !Registered(t[j], s);
      assert BringsUp(more[i], s);
      forall j | i < j < |more| ensures !Registered(more[j], s) {
        assert j < |t| ==> more[j] == t[j];
      }
    }
    if BringsUp(o, s) {
      assert BringsUp(more[|t|], s);
    }
  }

  lemma FirstsStay(t: Transcript, o: Observation, j: nat)
    requires j < |t|
    ensures FirstActivation(t + [o], j) <==> FirstActivation(t, j)
  {
    hide BringsUp, Registered, UpSinceRegistered;
    assert (t + [o])[..j] == t[..j] && (t + [o])[j] == t[j];
  }

  lemma ProbedOneMore(t: Transcript, o: Observation)
    ensures ProbedSince(t + [o]) <==>
      Probes(o) || (ProbedSince(t) && !Resets(o) && !FirstActivation(t + [o], |t|))
  {
    hide FirstActivation, Probes, Resets;
    var more := t + [o];
    forall j: nat | j < |t| ensures FirstActivation(more, j) <==> FirstActivation(t, j) {
      FirstsStay(t, o, j);
    }
    if i :| 0 <= i < |more| && Probes(more[i]) && forall j: nat :: i < j < |more| ==>
              !Resets(more[j]) && !FirstActivation(more, j)
    {
      if i < |t| {
        assert Probes(t[i]) && !Resets(more[|t|]) && !FirstActivation(more, |t|);
        forall j: nat | i < j < |t| ensures !Resets(t[j]) && !FirstActivation(t, j) {
          assert more[j] == t[j] && !Resets(more[j]) && !FirstActivation(more, j);
        }
      } else {
        assert more[i] == o;
      }
    }
    if ProbedSince(t) && !Resets(o) && !FirstActivation(more, |t|) {
      var i :| 0 <= i < |t| && Probes(t[i]) && forall j: nat :: i < j < |t| ==> !Resets(t[j]) && !FirstActivation(t, j);
      assert Probes(more[i]);
      forall j: nat | i < j < |more| ensures !Resets(more[j]) && !FirstActivation(more, j) {
        if j < |t| {
          assert more[j] == t[j] && !Resets(t[j]) && !FirstActivation(t, j);
        }
      }
    }
    if Probes(o) {
      assert Probes(more[|t|]);
    }
  }

  // ---- what one step does to the flags --------------------------------------------------------

  predicate SaysYes(call: HookCall, answers: HookAnswers) {
    (call.InitWindowSurface? && answers.window) || (call.InitPbufferSurface? && answers.pbuffer)
  }

  lemma BringsUpByHead(r: Registry, step: Step, s: Surface)
    requires Noted(r, step)
    ensures |Head(r, step)| <= 1 && (Head(r, step) != [] ==> IsInit(Head(r, step)[0]))
    ensures BringsUp(Observe(r, step), s) <==>
      Head(r, step) != [] && Head(r, step)[0].surface == s && SaysYes(Head(r, step)[0], step.answers)
  {
    hide Apply, Note, NoteRegistration, NoteCalls, Head, NewCalls;
    HeadIsOne(r, step);
    OnlyHead(NewCalls(r, step), Head(r, step));
  }

  lemma OnlyHead(calls: seq<HookCall>, head: seq<HookCall>)
    requires |head| <= 1 && head <= calls && NoInit(calls[|head|..])
    ensures forall call :: call in calls && IsInit(call) ==> head != [] && call == head[0]
    ensures head != [] ==> head[0] in calls
  {
    assert calls == head + calls[|head|..];
    assert head != [] ==> calls[0] == head[0];
  }

  lemma HeadIsOne(r: Registry, step: Step)
    ensures |Head(r, step)| <= 1 && (Head(r, step) != [] ==> IsInit(Head(r, step)[0]))
  {
  }

  /** The surface a step asks for is registered by then, as the kind it is asked for. */
  lemma HeadIsRegistered(r: Registry, step: Step)
    requires Noted(r, step) && Head(r, step) != []
    ensures var asked := Head(r, step)[0];
      var p := NoteRegistration(r, Observe(r, step));
      && IsInit(asked) && asked.surface in p.surfaces
      && !(r.hasActiveSurface && r.activeSurface == asked.surface)
      && asked == (if p.surfaces[asked.surface].kind == Window
                   then InitWindowSurface(asked.surface, p.surfaces[asked.surface].window)
                   else InitPbufferSurface(asked.surface, p.surfaces[asked.surface].width,
                                           p.surfaces[asked.surface].height))
  {
    hide Apply, Note, NoteCalls, NewCalls;
    assert NewCalls(r, step) != [];
    if step.op.DoCreateWindow? || step.op.DoCreatePbuffer? {
      CreatedIsRegistered(r, step);
    }
  }

  lemma CreatedIsRegistered(r: Registry, step: Step)
    requires NewCalls(r, step) != [] && Head(r, step) != []
    ensures step.op.DoCreateWindow? ==>
      NoteRegistration(r, Observe(r, step)) == RegisterWindow(r, step.op.surface, step.op.handle).state
    ensures step.op.DoCreatePbuffer? ==>
      NoteRegistration(r, Observe(r, step)) == RegisterPbuffer(r, step.op.surface, step.op.w, step.op.h).state
  {
    hide Apply, NewCalls, UpCalls;
  }

  /** Calls that ask for no surface move no mark of a surface that stays, and the probe's only by a probe. */
  lemma {:induction false} QuietCalls(p: Registry, calls: seq<HookCall>, answers: HookAnswers)
    requires NoInit(calls)
    ensures var later := NoteCalls(p, calls, answers);
      && (forall s :: s in later.surfaces ==> s in p.surfaces && later.surfaces[s] == p.surfaces[s])
      && later.capabilitiesInitialized ==
         if InitCapabilities in calls then answers.capabilities else p.capabilitiesInitialized
    decreases |calls|
  {
    hide NoteCall;
    if calls != [] {
      var before, last := calls[..|calls| - 1], calls[|calls| - 1];
      assert forall i :: 0 <= i < |before| ==> before[i] == calls[i];
      QuietCalls(p, before, answers);
      QuietCall(NoteCalls(p, before, answers), last, answers);
      assert InitCapabilities in calls <==> InitCapabilities in before || last == InitCapabilities;
    }
  }

  lemma QuietCall(p: Registry, call: HookCall, answers: HookAnswers)
    requires !IsInit(call)
    ensures var later := NoteCall(p, call, answers);
      && (forall s :: s in later.surfaces ==> s in p.surfaces && later.surfaces[s] == p.surfaces[s])
      && later.capabilitiesInitialized ==
         if call == InitCapabilities then answers.capabilities else p.capabilitiesInitialized
  {
  }

  lemma RegistrationFlags(r: Registry, o: Observation)
    ensures var p := NoteRegistration(r, o);
      && p.capabilitiesInitialized == r.capabilitiesInitialized
      && forall s :: (s in p.surfaces <==> s in r.surfaces || Registered(o, s)) &&
                     (s in p.surfaces ==>
                        (p.surfaces[s].activated <==> !Registered(o, s) && r.surfaces[s].activated))
  {
    hide NoteWindow, NotePbuffer, Registered;
    RegisteredIsTarget(o);
    match o.step.op
    case DoRegisterWindow(s, handle) => NewRecordFlags(r, s, handle, 1, 1);
    case DoCreateWindow(s, handle) => NewRecordFlags(r, s, handle, 1, 1);
    case DoRegisterPbuffer(s, w, h) => NewRecordFlags(r, s, NO_WINDOW, w, h);
    case DoCreatePbuffer(s, w, h) => NewRecordFlags(r, s, NO_WINDOW, w, h);
    case _ =>
  }

  lemma RegisteredIsTarget(o: Observation)
    ensures forall s :: Registered(o, s) ==>
      match o.step.op
      case DoRegisterWindow(surface, _) => s == surface
      case DoCreateWindow(surface, _) => s == surface
      case DoRegisterPbuffer(surface, _, _) => s == surface
      case DoCreatePbuffer(surface, _, _) => s == surface
      case _ => false
  {
  }

  lemma NewRecordFlags(p: Registry, s: Surface, handle: WindowHandle, w: Int32, h: Int32)
    ensures forall later | later in {NoteWindow(p, s, handle), NotePbuffer(p, s, w, h)} ::
      && later.capabilitiesInitialized == p.capabilitiesInitialized && later.surfaces.Keys == p.surfaces.Keys + {s}
      && !later.surfaces[s].activated
      && forall other :: other in p.surfaces && other != s ==> later.surfaces[other] == p.surfaces[other]
  {
  }

  lemma HeadFlags(p: Registry, call: HookCall, answers: HookAnswers)
    requires IsInit(call) && call.surface in p.surfaces
    ensures var later := NoteCalls(p, [call], answers);
      && later.surfaces.Keys == p.surfaces.Keys
      && (forall s :: s in p.surfaces ==>
            (later.surfaces[s].activated <==> p.surfaces[s].activated || (s == call.surface && SaysYes(call, answers))))
      && later.capabilitiesInitialized ==
         (p.capabilitiesInitialized && !(SaysYes(call, answers) && !p.surfaces[call.surface].activated))
  {
    hide NoteCalls;
    NoteOne(p, call, answers);
  }

  /** What an operation moves itself: no mark, and the probe's only by a reset. */
  ghost predicate KeepsFlags(p: Registry, o: Observation) {
    var later := NoteOperation(p, o);
    && (forall s :: s in later.surfaces ==>
          s in p.surfaces && (later.surfaces[s].activated <==> p.surfaces[s].activated))
    && later.capabilitiesInitialized == (p.capabilitiesInitialized && !Resets(o))
  }

  lemma OperationFlags(p: Registry, o: Observation)
    ensures KeepsFlags(p, o)
  {
    hide KeepsFlags;
    match o.step.op
    case DoResize(_, _, _) => ResizeFlags(p, o);
    case DoSetExtent(_, _, _, _) => SetExtentFlags(p, o);
    case DoReleaseSurface(_) => MarkFlags(p, o);
    case DoMakeCurrent(_, _, _, _) => BindFlags(p, o);
    case _ => OtherFlags(p, o);
  }

  lemma ResizeFlags(p: Registry, o: Observation)
    requires o.step.op.DoResize?
    ensures KeepsFlags(p, o)
  {
    hide NoteExtent;
    var DoResize(s, w, h) := o.step.op;
    if s in p.surfaces {
      var window := p.surfaces[s].window.(width := w, height := h);
      ExtentFlags(p, s, window, p.windowHandle);
      ExtentFlags(p, s, window, p.windowHandle.(width := w, height := h));
    }
  }

  lemma SetExtentFlags(p: Registry, o: Observation)
    requires o.step.op.DoSetExtent?
    ensures KeepsFlags(p, o)
  {
    hide NoteExtent;
    var DoSetExtent(s, w, h, native) := o.step.op;
    if s in p.surfaces {
      var handle := if native == NONE then p.surfaces[s].window.handle else native;
      var window := WindowHandle(p.surfaces[s].window.backend, handle, w, h);
      ExtentFlags(p, s, window, p.windowHandle);
      ExtentFlags(p, s, window, window);
    }
  }

  lemma MarkFlags(p: Registry, o: Observation)
    requires o.step.op.DoReleaseSurface?
    ensures KeepsFlags(p, o)
  {
  }

  lemma BindFlags(p: Registry, o: Observation)
    requires o.step.op.DoMakeCurrent?
    ensures KeepsFlags(p, o)
  {
  }

  lemma OtherFlags(p: Registry, o: Observation)
    requires !o.step.op.DoResize? && !o.step.op.DoSetExtent? && !o.step.op.DoReleaseSurface?
    requires !o.step.op.DoMakeCurrent?
    ensures KeepsFlags(p, o)
  {
  }

  lemma ExtentFlags(p: Registry, s: Surface, window: WindowHandle, shown: WindowHandle)
    requires s in p.surfaces
    ensures var later := NoteExtent(p, s, window, shown);
      && later.capabilitiesInitialized == p.capabilitiesInitialized && later.surfaces.Keys == p.surfaces.Keys
      && forall other :: other in p.surfaces ==> later.surfaces[other].activated == p.surfaces[other].activated
  {
  }

  lemma ResetsAskNothing(r: Registry, step: Step)
    requires Resets(Observe(r, step))
    ensures NewCalls(r, step) == []
  {
    assert Apply(r, step).state.hookCalls == r.hookCalls;
  }

  /** The step brings up a surface whose mark is not set. */
  ghost predicate FirstIn(r: Registry, o: Observation) {
    exists s :: BringsUp(o, s) && (Registered(o, s) || (s in r.surfaces && !r.surfaces[s].activated))
  }

  lemma FlagsOfStep(r: Registry, step: Step)
    requires Consistent(r)
    ensures var o, later := Observe(r, step), Apply(r, step).state;
      && (forall s :: s in later.surfaces ==>
            && (Registered(o, s) || s in r.surfaces)
            && (later.surfaces[s].activated <==>
                  BringsUp(o, s) || (!Registered(o, s) && r.surfaces[s].activated)))
      && (later.capabilitiesInitialized <==>
            Probes(o) || (r.capabilitiesInitialized && !Resets(o) && !FirstIn(r, o)))
  {
    hide Apply, NoteRegistration, NoteCalls, NoteOperation, NewCalls, Head, Registered, BringsUp, Consistent, Resets,
      SaysYes;
    EveryStepIsNoted(r, step);
    var o, head := Observe(r, step), Head(r, step);
    var rest := o.calls[|head|..];
    var start := NoteRegistration(r, o);
    var up := NoteCalls(start, head, step.answers);
    assert o.calls == head + rest;
    NoteMore(start, head, rest, step.answers);
    RegistrationFlags(r, o);
    QuietCalls(up, rest, step.answers);
    OperationFlags(NoteCalls(up, rest, step.answers), o);
    UpFlags(r, step);
    RestProbes(r, step);
    if Resets(o) {
      ResetsAskNothing(r, step);
    }
  }

  lemma RestProbes(r: Registry, step: Step)
    requires Noted(r, step)
    ensures InitCapabilities in NewCalls(r, step) <==> InitCapabilities in NewCalls(r, step)[|Head(r, step)|..]
  {
    hide Apply, Note, NoteRegistration, NoteCalls, Head, NewCalls;
    HeadIsOne(r, step);
    assert NewCalls(r, step) == Head(r, step) + NewCalls(r, step)[|Head(r, step)|..];
  }

  lemma UpFlags(r: Registry, step: Step)
    requires Noted(r, step)
    ensures var o := Observe(r, step);
      var start := NoteRegistration(r, o);
      var up := NoteCalls(start, Head(r, step), step.answers);
      && up.surfaces.Keys == start.surfaces.Keys
      && (forall s :: s in start.surfaces ==>
            (up.surfaces[s].activated <==> start.surfaces[s].activated || BringsUp(o, s)))
      && up.capabilitiesInitialized == (r.capabilitiesInitialized && !FirstIn(r, o))
  {
    hide Apply, Note, NoteRegistration, NoteCalls, NewCalls, Head, Registered, BringsUp, SaysYes, Noted;
    var o, head := Observe(r, step), Head(r, step);
    var start := NoteRegistration(r, o);
    RegistrationFlags(r, o);
    NoteNone(start, step.answers);
    HeadIsOne(r, step);
    forall s ensures BringsUp(o, s) <==> head != [] && head[0].surface == s && SaysYes(head[0], step.answers) {
      BringsUpByHead(r, step, s);
    }
    if head != [] {
      assert head == [head[0]];
      HeadIsRegistered(r, step);
      HeadFlags(start, head[0], step.answers);
    }
  }

  lemma FlagsStep(r: Registry, t: Transcript, step: Step)
    requires Consistent(r) && FlagsTell(r, t)
    ensures FlagsTell(Apply(r, step).state, t + [Observe(r, step)])
  {
    hide Apply, Observe, Registered, BringsUp, Consistent, Resets, Probes, UpSinceRegistered, ProbedSince;
    var o := Observe(r, step);
    FlagsOfStep(r, step);
    forall s ensures UpSinceRegistered(t + [o], s) <==> BringsUp(o, s) || (UpSinceRegistered(t, s) && !Registered(o, s))
    {
      UpOneMore(t, o, s);
    }
    ProbedOneMore(t, o);
    FirstsAgree(r, t, step);
  }

  /** A first activation of the transcript is one of the flags. */
  lemma FirstsAgree(r: Registry, t: Transcript, step: Step)
    requires Consistent(r) && FlagsTell(r, t)
    ensures FirstActivation(t + [Observe(r, step)], |t|) <==> FirstIn(r, Observe(r, step))
  {
    hide Apply, Registered, BringsUp, Consistent, UpSinceRegistered, ProbedSince, NewCalls;
    var o := Observe(r, step);
    var more := t + [o];
    assert more[..|t|] == t && more[|t|] == o;
    forall s | BringsUp(o, s) ensures Registered(o, s) || s in r.surfaces {
      UpIsRegistered(r, step, s);
    }
  }

  lemma UpIsRegistered(r: Registry, step: Step, s: Surface)
    requires Consistent(r) && BringsUp(Observe(r, step), s)
    ensures Registered(Observe(r, step), s) || s in r.surfaces
  {
    hide Apply, Registered, BringsUp, Consistent, NewCalls, Noted, Head, NoteRegistration;
    EveryStepIsNoted(r, step);
    BringsUpByHead(r, step, s);
    HeadIsRegistered(r, step);
    RegistrationFlags(r, Observe(r, step));
  }

  /** THE FLAGS, over runs from a fresh registry: a registered surface is marked activated if and only if the
      backend has brought it up since it was last registered, and the capabilities are initialized if and only
      if a probe has succeeded since the last reset and the last first activation. */
  lemma {:induction false} FlagsTellHistory(steps: seq<Step>)
    ensures FlagsTell(Run(INITIAL, steps), Seen(INITIAL, steps))
    decreases |steps|
  {
    hide Apply, Consistent, Observe, FlagsTell;
    FreshIsConsistent();
    if steps == [] {
      NothingSeen();
    } else {
      var before := steps[..|steps| - 1];
      FlagsTellHistory(before);
      RunKeepsConsistent(INITIAL, before);
      RunLast(INITIAL, steps);
      FlagsStep(Run(INITIAL, before), Seen(INITIAL, before), steps[|steps| - 1]);
    }
  }

  lemma NothingSeen()
    ensures FlagsTell(INITIAL, [])
  {
  }

  // ---- when a bind probes ---------------------------------------------------------------------

  /** THE PROBE, by history: a bind runs it if and only if it gets as far as having its surface up and a context,
      and either no probe has succeeded since the last reset and first activation, or the bind is itself the
      first activation of its surface since that was registered. */
  lemma BindProbesByHistory(steps: seq<Step>, thread: ThreadId, dpy: Display, draw: Surface, read: Surface,
                            ctx: Context, answers: HookAnswers)
    requires !(draw == NONE && read == NONE && ctx == NONE)
    ensures var r, t := Run(INITIAL, steps), Seen(INITIAL, steps);
      var active := r.hasActiveSurface && r.activeSurface == draw;
      InitCapabilities in Observe(r, Step(thread, DoMakeCurrent(dpy, draw, read, ctx), answers)).calls <==>
        && r.displayInitialized && r.display == dpy && draw == read && draw in r.surfaces && ctx != NONE
        && (active || (if r.surfaces[draw].kind == Window then answers.window else answers.pbuffer))
        && (!ProbedSince(t) || (!active && !UpSinceRegistered(t, draw)))
  {
    hide Apply, Told, ProbedSince, UpSinceRegistered, Note, NewCalls, MakeCurrent;
    var r := Run(INITIAL, steps);
    var step := Step(thread, DoMakeCurrent(dpy, draw, read, ctx), answers);
    FreshIsConsistent();
    RunKeepsConsistent(INITIAL, steps);
    FlagsTellHistory(steps);
    RegistryLaws.BindProbesExactlyWhenDue(r, thread, dpy, draw, read, ctx, answers);
    EveryStepIsNoted(r, step);
    ToldMore(r, step);
    ApplyBinds(r, step);
  }

  lemma ApplyBinds(r: Registry, step: Step)
    requires step.op.DoMakeCurrent?
    ensures Apply(r, step) ==
            MakeCurrent(r, step.thread, step.op.dpy, step.op.draw, step.op.read, step.op.ctx, step.answers)
  {
    hide MakeCurrent;
  }

  /** What is asked for once more is among the new calls. */
  lemma ToldMore(r: Registry, step: Step)
    requires Consistent(r)
    ensures InitCapabilities in NewCalls(r, step) <==>
            Told(Apply(r, step).state.hookCalls, InitCapabilities) > Told(r.hookCalls, InitCapabilities)
  {
    hide Apply, Consistent;
    LogGrows(r, step);
    var later := Apply(r, step).state.hookCalls;
    assert later == r.hookCalls + NewCalls(r, step);
    assert multiset(later) == multiset(r.hookCalls) + multiset(NewCalls(r, step));
  }

  /** Nothing is taken off the log. */
  lemma LogGrows(r: Registry, step: Step)
    requires Consistent(r)
    ensures Apply(r, step).state.hookCalls == r.hookCalls + NewCalls(r, step)
  {
    hide Apply, Consistent, Head, NoteRegistration, NoteOperation, NewCalls;
    EveryStepIsNoted(r, step);
    var o := Observe(r, step);
    NotesAreLogged(NoteRegistration(r, o), o.calls, step.answers);
    OnlyCallsAreLogged(r, o);
    OnlyCallsAreLogged(NoteCalls(NoteRegistration(r, o), o.calls, step.answers), o);
  }

  lemma {:induction false} NotesAreLogged(p: Registry, calls: seq<HookCall>, answers: HookAnswers)
    ensures NoteCalls(p, calls, answers).hookCalls == p.hookCalls + calls
    decreases |calls|
  {
    hide NoteCall;
    if calls != [] {
      var before := calls[..|calls| - 1];
      NotesAreLogged(p, before, answers);
      NoteIsLogged(NoteCalls(p, before, answers), calls[|calls| - 1], answers);
    }
  }

  lemma NoteIsLogged(p: Registry, call: HookCall, answers: HookAnswers)
    ensures NoteCall(p, call, answers).hookCalls == p.hookCalls + [call]
  {
  }

  lemma OnlyCallsAreLogged(p: Registry, o: Observation)
    ensures NoteRegistration(p, o).hookCalls == p.hookCalls && NoteOperation(p, o).hookCalls == p.hookCalls
  {
    hide ToInt32, Registered;
  }

  /** So the next bind probes that brings up a surface not brought up since it was registered, and the next one
      after a reset. */
  lemma DueAfterRegistrationOrReset(t: Transcript, k: nat, s: Surface)
    requires k < |t|
    ensures Registered(t[k], s) && (forall j :: k <= j < |t| ==> !BringsUp(t[j], s)) ==> !UpSinceRegistered(t, s)
    ensures Resets(t[k]) && (forall j :: k <= j < |t| ==> !Probes(t[j])) ==> !ProbedSince(t)
  {
    hide Registered, BringsUp, Resets, Probes, FirstActivation;
  }
}
