/** The EGL bookkeeping of MG_Backend/EGLSurfaceRegistry as a state machine.

  A `Registry` value is the whole state of one registry object. Each public operation runs under the
  registry's one lock, so it is one atomic step; the calling thread is a parameter. The owning
  backend's hooks do not change the registry here: what a fallible hook answers is part of the step
  (`HookAnswers`; no operation runs the same fallible hook twice), and every hook call is appended
  to `hookCalls` in the order the registry makes it. */
module RegistryModel {
  import opened Wrappers

  // Opaque EGL handles, thread ids and native pointers; 0 is EGL_NO_DISPLAY, EGL_NO_SURFACE,
  // EGL_NO_CONTEXT and nullptr.
  type Display = nat
  type Surface = nat
  type Context = nat
  type ThreadId = nat
  const NONE: nat := 0

  datatype WindowBackend = Android | X11 | MetalLayer | Win32 | WindowBackendCount | Unknown

  datatype WindowHandle = WindowHandle(backend: WindowBackend, handle: nat, width: Uint32, height: Uint32)

  const NO_WINDOW := WindowHandle(Unknown, NONE, 0, 0)

  datatype SurfaceKind = NoKind | Window | Pbuffer

  datatype SurfaceState = SurfaceState(
    kind: SurfaceKind, destroyPending: bool, activated: bool, window: WindowHandle, width: Int32, height: Int32)

  datatype CurrentState = CurrentState(display: Display, draw: Surface, read: Surface, context: Context)

  datatype HookCall =
    | InitWindowSurface(surface: Surface, window: WindowHandle)
    | InitPbufferSurface(surface: Surface, width: Int32, height: Int32)
    | InitCapabilities
    | OnSurfaceReleased(surface: Surface)
    | OnSurfaceForgotten(surface: Surface)
    | GetPresentFunction
    | Present

  datatype HookAnswers = HookAnswers(window: bool, pbuffer: bool, capabilities: bool, present: bool)

  datatype Registry = Registry(
    windowHandle: WindowHandle,
    display: Display,
    displayInitialized: bool,
    activeSurface: Surface,
    hasActiveSurface: bool,
    activeSurfaceKind: SurfaceKind,
    activatingSurface: Surface,
    capabilitiesInitialized: bool,
    currentThreads: map<ThreadId, CurrentState>,
    surfaces: map<Surface, SurfaceState>,
    hookCalls: seq<HookCall>)

  const INITIAL := Registry(NO_WINDOW, NONE, false, NONE, false, NoKind, NONE, false, map[], map[], [])

  /** What an operation leaves behind and what it answers (operations without a result answer true). */
  datatype Outcome = Outcome(state: Registry, ok: bool)

  // ---- registration -------------------------------------------------------------------------

  function WindowRecord(handle: WindowHandle): SurfaceState {
    SurfaceState(Window, false, false, handle, ToInt32(Max(handle.width, 1)), ToInt32(Max(handle.height, 1)))
  }

  function PbufferRecord(width: Int32, height: Int32): SurfaceState {
    SurfaceState(Pbuffer, false, false, NO_WINDOW, width, height)
  }

  predicate WindowAccepted(r: Registry, surface: Surface, handle: WindowHandle) {
    r.displayInitialized && surface != NONE && handle.backend != Unknown && handle.handle != NONE
  }

  predicate PbufferAccepted(r: Registry, surface: Surface, width: Int32, height: Int32) {
    r.displayInitialized && surface != NONE && 0 < width && 0 < height
  }

  function RegisterWindow(r: Registry, surface: Surface, handle: WindowHandle): Outcome {
    if WindowAccepted(r, surface, handle)
    then Outcome(r.(surfaces := r.surfaces[surface := WindowRecord(handle)]), true)
    else Outcome(r, false)
  }

  function RegisterPbuffer(r: Registry, surface: Surface, width: Int32, height: Int32): Outcome {
    if PbufferAccepted(r, surface, width, height)
    then Outcome(r.(surfaces := r.surfaces[surface := PbufferRecord(width, height)]), true)
    else Outcome(r, false)
  }

  // ---- the active surface -------------------------------------------------------------------

  predicate IsActive(r: Registry, surface: Surface) {
    r.hasActiveSurface && r.activeSurface == surface
  }

  /** The init hook `surface`'s kind asks for. */
  function InitCalls(surface: Surface, record: SurfaceState): seq<HookCall> {
    match record.kind
    case Window => [InitWindowSurface(surface, record.window)]
    case Pbuffer => [InitPbufferSurface(surface, record.width, record.height)]
    case NoKind => []
  }

  /** The backend has been asked to bring `surface` up; a window's handle is published first. */
  function AskedToInit(r: Registry, surface: Surface): Registry
    requires surface in r.surfaces
  {
    var record := r.surfaces[surface];
    r.(activatingSurface := surface,
       windowHandle := if record.kind == Window then record.window else r.windowHandle,
       hookCalls := r.hookCalls + InitCalls(surface, record))
  }

  /** The backend could bring `surface` up. */
  predicate InitAnswer(record: SurfaceState, answers: HookAnswers) {
    match record.kind
    case Window => answers.window
    case Pbuffer => answers.pbuffer
    case NoKind => false
  }

  /** A first activation (and only a first one) makes the capability probe due again. */
  function Activate(r: Registry, surface: Surface, answers: HookAnswers): Outcome {
    if surface !in r.surfaces then Outcome(r, false)
    else if IsActive(r, surface) then Outcome(r, true)
    else
      var record := r.surfaces[surface];
      var asked := AskedToInit(r, surface);
      if !InitAnswer(record, answers) then Outcome(asked, false)
      else
        Outcome(asked.(activeSurface := surface, hasActiveSurface := true, activeSurfaceKind := record.kind,
                       surfaces := r.surfaces[surface := record.(activated := true)],
                       capabilitiesInitialized := r.capabilitiesInitialized && record.activated), true)
  }

  function ForgetActive(r: Registry): Registry {
    r.(hasActiveSurface := false, activeSurfaceKind := NoKind, activeSurface := NONE, windowHandle := NO_WINDOW)
  }

  function AdoptActive(r: Registry, surface: Surface): Outcome {
    if surface !in r.surfaces then Outcome(r, false)
    else
      var record := r.surfaces[surface];
      Outcome(r.(activeSurface := surface, hasActiveSurface := true, activeSurfaceKind := record.kind,
                 windowHandle := if record.kind == Window then record.window else r.windowHandle), true)
  }

  function Resize(r: Registry, surface: Surface, width: Uint32, height: Uint32): Outcome {
    if surface !in r.surfaces || r.surfaces[surface].kind == NoKind then Outcome(r, false)
    else
      var record := r.surfaces[surface];
      var resized := record.(window := record.window.(width := width, height := height),
                             width := ToInt32(Max(width, 1)), height := ToInt32(Max(height, 1)));
      Outcome(r.(surfaces := r.surfaces[surface := resized],
                 windowHandle := if r.activeSurface == surface
                                 then r.windowHandle.(width := width, height := height)
                                 else r.windowHandle), true)
  }

  function SetExtent(r: Registry, surface: Surface, width: Uint32, height: Uint32, native: nat): Outcome {
    if surface !in r.surfaces then Outcome(r, false)
    else
      var record := r.surfaces[surface];
      var window := record.window.(handle := if native != NONE then native else record.window.handle,
                                   width := width, height := height);
      var resized := record.(window := window,
                             width := ToInt32(Max(width, 1)), height := ToInt32(Max(height, 1)));
      Outcome(r.(surfaces := r.surfaces[surface := resized],
                 windowHandle := if r.activeSurface == surface then window else r.windowHandle), true)
  }

  // ---- deferred destruction -----------------------------------------------------------------

  /** Some thread has `surface` current, to draw to or to read from. */
  predicate IsCurrent(r: Registry, surface: Surface) {
    surface != NONE &&
    exists t :: t in r.currentThreads && (r.currentThreads[t].draw == surface || r.currentThreads[t].read == surface)
  }

  /** The hooks a dropped surface runs, in order. */
  function DropCalls(r: Registry, surface: Surface): seq<HookCall> {
    (if r.activeSurface == surface then [OnSurfaceReleased(surface)] else []) + [OnSurfaceForgotten(surface)]
  }

  function Drop(r: Registry, surface: Surface): Registry {
    var rest := r.(surfaces := r.surfaces - {surface}, hookCalls := r.hookCalls + DropCalls(r, surface));
    if r.activeSurface == surface then ForgetActive(rest) else rest
  }

  function CollectPending(r: Registry, surface: Surface): Registry {
    if surface in r.surfaces && r.surfaces[surface].destroyPending && !IsCurrent(r, surface)
    then Drop(r, surface)
    else r
  }

  function ReleaseThread(r: Registry, thread: ThreadId): Registry {
    if thread !in r.currentThreads then r
    else
      var binding := r.currentThreads[thread];
      var left := r.(currentThreads := r.currentThreads - {thread});
      CollectPending(CollectPending(left, binding.draw), binding.read)
  }

  function ReleaseSurface(r: Registry, surface: Surface): Registry {
    if surface !in r.surfaces then r
    else if IsCurrent(r, surface)
    then r.(surfaces := r.surfaces[surface := r.surfaces[surface].(destroyPending := true)])
    else Drop(r, surface)
  }

  function ResetRuntime(r: Registry): Registry {
    ForgetActive(r).(capabilitiesInitialized := false, currentThreads := map[])
  }

  function ReleaseAll(r: Registry): Registry {
    ResetRuntime(r).(surfaces := map[], display := NONE, displayInitialized := false)
  }

  // ---- make-current and swap ----------------------------------------------------------------

  predicate IsReleaseRequest(draw: Surface, read: Surface, ctx: Context) {
    draw == NONE && read == NONE && ctx == NONE
  }

  predicate DisplayIs(r: Registry, dpy: Display) {
    r.displayInitialized && r.display == dpy
  }

  /** The backend is on `draw` before anything is bound: nothing active means a lazy activation,
      another active surface means a switch, and either may be refused. */
  function BringUp(r: Registry, draw: Surface, read: Surface, answers: HookAnswers): Outcome {
    var lazily := if r.hasActiveSurface then Outcome(r, true)
                  else if draw != read then Outcome(r, false)
                  else Activate(r, draw, answers);
    if !lazily.ok then lazily
    else if draw !in lazily.state.surfaces || read !in lazily.state.surfaces || draw != read
    then Outcome(lazily.state, false)
    else if draw != lazily.state.activeSurface then Activate(lazily.state, draw, answers)
    else lazily
  }

  function Probe(r: Registry, answers: HookAnswers): Outcome {
    if r.capabilitiesInitialized then Outcome(r, true)
    else Outcome(r.(hookCalls := r.hookCalls + [InitCapabilities], capabilitiesInitialized := answers.capabilities),
                 answers.capabilities)
  }

  function MakeCurrent(r: Registry, thread: ThreadId, dpy: Display, draw: Surface, read: Surface, ctx: Context,
                       answers: HookAnswers): Outcome
  {
    if IsReleaseRequest(draw, read, ctx) then Outcome(ReleaseThread(r, thread), true)
    else if !DisplayIs(r, dpy) then Outcome(r, false)
    else
      var up := BringUp(r, draw, read, answers);
      if !up.ok || draw == NONE || read == NONE || ctx == NONE then Outcome(up.state, false)
      else
        var probed := Probe(up.state, answers);
        if !probed.ok then probed
        else
          var left := ReleaseThread(probed.state, thread);
          Outcome(left.(currentThreads := left.currentThreads[thread := CurrentState(dpy, draw, read, ctx)]), true)
  }

  predicate MaySwap(r: Registry, thread: ThreadId, dpy: Display, draw: Surface) {
    DisplayIs(r, dpy) &&
    thread in r.currentThreads &&
    r.currentThreads[thread].display == dpy && r.currentThreads[thread].draw == draw &&
    r.currentThreads[thread].context != NONE &&
    draw != NONE && draw in r.surfaces
  }

  function Swap(r: Registry, thread: ThreadId, dpy: Display, draw: Surface, answers: HookAnswers): Outcome {
    if !MaySwap(r, thread, dpy, draw) then Outcome(r, false)
    else
      var up := if IsActive(r, draw) then Outcome(r, true) else Activate(r, draw, answers);
      if !up.ok then up
      else
        var calls := if answers.present then [GetPresentFunction, Present] else [GetPresentFunction];
        Outcome(up.state.(hookCalls := up.state.hookCalls + calls), answers.present)
  }

  // ---- runs ---------------------------------------------------------------------------------

  datatype Operation =
    | DoInitializeDisplay(dpy: Display)
    | DoRegisterWindow(surface: Surface, handle: WindowHandle)
    | DoRegisterPbuffer(surface: Surface, w: Int32, h: Int32)
    | DoCreateWindow(surface: Surface, handle: WindowHandle)
    | DoCreatePbuffer(surface: Surface, w: Int32, h: Int32)
    | DoResize(surface: Surface, width: Uint32, height: Uint32)
    | DoSetExtent(surface: Surface, width: Uint32, height: Uint32, native: nat)
    | DoSetWindowHandle(handle: WindowHandle)
    | DoActivate(surface: Surface)
    | DoAdoptActive(surface: Surface)
    | DoForgetActive
    | DoMakeCurrent(dpy: Display, draw: Surface, read: Surface, ctx: Context)
    | DoSwap(dpy: Display, draw: Surface)
    | DoReleaseSurface(surface: Surface)
    | DoResetRuntime
    | DoReleaseAll

  datatype Step = Step(thread: ThreadId, op: Operation, answers: HookAnswers)

  function AndThen(first: Outcome, surface: Surface, answers: HookAnswers): Outcome {
    if first.ok then Activate(first.state, surface, answers) else first
  }

  function InitializeDisplay(r: Registry, dpy: Display): Outcome {
    if dpy == NONE then Outcome(r, false) else Outcome(r.(display := dpy, displayInitialized := true), true)
  }

  function Apply(r: Registry, step: Step): Outcome {
    match step.op
    case DoInitializeDisplay(dpy) => InitializeDisplay(r, dpy)
    case DoRegisterWindow(s, handle) => RegisterWindow(r, s, handle)
    case DoRegisterPbuffer(s, w, h) => RegisterPbuffer(r, s, w, h)
    case DoCreateWindow(s, handle) => AndThen(RegisterWindow(r, s, handle), s, step.answers)
    case DoCreatePbuffer(s, w, h) => AndThen(RegisterPbuffer(r, s, w, h), s, step.answers)
    case DoResize(s, w, h) => Resize(r, s, w, h)
    case DoSetExtent(s, w, h, native) => SetExtent(r, s, w, h, native)
    case DoSetWindowHandle(handle) => Outcome(r.(windowHandle := handle), true)
    case DoActivate(s) => Activate(r, s, step.answers)
    case DoAdoptActive(s) => AdoptActive(r, s)
    case DoForgetActive => Outcome(ForgetActive(r), true)
    case DoMakeCurrent(dpy, draw, read, ctx) => MakeCurrent(r, step.thread, dpy, draw, read, ctx, step.answers)
    case DoSwap(dpy, draw) => Swap(r, step.thread, dpy, draw, step.answers)
    case DoReleaseSurface(s) => Outcome(ReleaseSurface(r, s), true)
    case DoResetRuntime => Outcome(ResetRuntime(r), true)
    case DoReleaseAll => Outcome(ReleaseAll(r), true)
  }

  /** The state after a whole interleaving of the threads' operations. */
  function Run(r: Registry, steps: seq<Step>): Registry
    decreases |steps|
  {
    if steps == [] then r else Run(Apply(r, steps[0]).state, steps[1..])
  }
}
