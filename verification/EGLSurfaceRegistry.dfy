/** The registry object itself: the fields of MG_Backend/EGLSurfaceRegistry, updated in place by the
  methods the backends call, each proved against its step of `RegistryModel`. */
module EGLSurfaceRegistryObject {
  import opened Wrappers
  import M = RegistryModel

  class EGLSurfaceRegistry {
    var windowHandle: M.WindowHandle
    var display: M.Display
    var displayInitialized: bool
    var activeSurface: M.Surface
    var activatingSurface: M.Surface
    var hasActiveSurface: bool
    var capabilitiesInitialized: bool
    var activeSurfaceKind: M.SurfaceKind
    var currentThreads: map<M.ThreadId, M.CurrentState>
    var surfaces: map<M.Surface, M.SurfaceState>
    // The calls made into the owning backend, oldest first.
    var hookCalls: seq<M.HookCall>

    /** The object's whole state as a value of the model. */
    function State(): M.Registry
      reads this
    {
      M.Registry(windowHandle, display, displayInitialized, activeSurface, hasActiveSurface, activeSurfaceKind,
                 activatingSurface, capabilitiesInitialized, currentThreads, surfaces, hookCalls)
    }

    constructor ()
      ensures State() == M.INITIAL
    {
      windowHandle := M.NO_WINDOW;
      display := M.NONE;
      displayInitialized := false;
      activeSurface := M.NONE;
      activatingSurface := M.NONE;
      hasActiveSurface := false;
      capabilitiesInitialized := false;
      activeSurfaceKind := M.NoKind;
      currentThreads := map[];
      surfaces := map[];
      hookCalls := [];
    }

    method InitializeDisplay(dpy: M.Display) returns (ok: bool, major: int, minor: int)
      modifies this
      ensures M.Outcome(State(), ok) == M.InitializeDisplay(old(State()), dpy)
      ensures ok ==> major == 1 && minor == 5
    {
      major, minor := 0, 0;
      if dpy == M.NONE {
        return false, major, minor;
      }
      display := dpy;
      displayInitialized := true;
      return true, 1, 5;
    }

    method RegisterWindowSurface(surface: M.Surface, handle: M.WindowHandle) returns (ok: bool)
      modifies this
      ensures M.Outcome(State(), ok) == M.RegisterWindow(old(State()), surface, handle)
    {
      if !displayInitialized || surface == M.NONE {
        return false;
      }
      if handle.backend == M.Unknown || handle.handle == M.NONE {
        return false;
      }
      surfaces := surfaces[surface := M.SurfaceState(M.Window, false, false, handle,
                                                     ToInt32(Max(handle.width, 1)), ToInt32(Max(handle.height, 1)))];
      return true;
    }

    method RegisterPbufferSurface(surface: M.Surface, width: Int32, height: Int32) returns (ok: bool)
      modifies this
      ensures M.Outcome(State(), ok) == M.RegisterPbuffer(old(State()), surface, width, height)
    {
      if !displayInitialized || surface == M.NONE || width <= 0 || height <= 0 {
        return false;
      }
      surfaces := surfaces[surface := M.SurfaceState(M.Pbuffer, false, false, M.NO_WINDOW, width, height)];
      return true;
    }

    method CreateWindowSurface(surface: M.Surface, handle: M.WindowHandle, answers: M.HookAnswers) returns (ok: bool)
      modifies this
      ensures M.Outcome(State(), ok) == M.AndThen(M.RegisterWindow(old(State()), surface, handle), surface, answers)
    {
      ok := RegisterWindowSurface(surface, handle);
      if ok {
        ok := Activate(surface, answers);
      }
    }

    method CreatePbufferSurface(surface: M.Surface, width: Int32, height: Int32, answers: M.HookAnswers)
      returns (ok: bool)
      modifies this
      ensures M.Outcome(State(), ok) ==
              M.AndThen(M.RegisterPbuffer(old(State()), surface, width, height), surface, answers)
    {
      ok := RegisterPbufferSurface(surface, width, height);
      if ok {
        ok := Activate(surface, answers);
      }
    }

    method ResizeSurface(surface: M.Surface, width: Uint32, height: Uint32) returns (ok: bool)
      modifies this
      ensures M.Outcome(State(), ok) == M.Resize(old(State()), surface, width, height)
    {
      if surface !in surfaces || surfaces[surface].kind == M.NoKind {
        return false;
      }
      var window := surfaces[surface].window.(width := width, height := height);
      surfaces := surfaces[surface := surfaces[surface].(window := window)];
      surfaces := surfaces[surface := surfaces[surface].(width := ToInt32(Max(width, 1)),
                                                         height := ToInt32(Max(height, 1)))];
      if activeSurface == surface {
        windowHandle := windowHandle.(width := width, height := height);
      }
      return true;
    }

    method SetWindowSurfaceExtent(surface: M.Surface, width: Uint32, height: Uint32, nativeWindow: nat)
      returns (ok: bool)
      modifies this
      ensures M.Outcome(State(), ok) == M.SetExtent(old(State()), surface, width, height, nativeWindow)
    {
      if surface !in surfaces {
        return false;
      }
      var window := surfaces[surface].window;
      if nativeWindow != M.NONE {
        window := window.(handle := nativeWindow);
      }
      window := window.(width := width, height := height);
      surfaces := surfaces[surface := surfaces[surface].(window := window, width := ToInt32(Max(width, 1)),
                                                         height := ToInt32(Max(height, 1)))];
      if activeSurface == surface {
        windowHandle := window;
      }
      return true;
    }

    method SetWindowHandle(handle: M.WindowHandle)
      modifies this`windowHandle
      ensures windowHandle == handle
    {
      windowHandle := handle;
    }

    method Activate(surface: M.Surface, answers: M.HookAnswers) returns (ok: bool)
      modifies this
      ensures M.Outcome(State(), ok) == M.Activate(old(State()), surface, answers)
    {
      if surface !in surfaces {
        return false;
      }
      if hasActiveSurface && activeSurface == surface {
        return true;
      }
      var up := AskBackend(surface, answers);
      if !up {
        return false;
      }
      activeSurface := surface;
      hasActiveSurface := true;
      activeSurfaceKind := surfaces[surface].kind;
      if !surfaces[surface].activated {
        surfaces := surfaces[surface := surfaces[surface].(activated := true)];
        capabilitiesInitialized := false;
      }
      assert surfaces == old(surfaces)[surface := old(surfaces)[surface].(activated := true)];
      return true;
    }

    /** Publishes what is being activated and runs the init hook of its kind. */
    method AskBackend(surface: M.Surface, answers: M.HookAnswers) returns (up: bool)
      requires surface in surfaces
      modifies this
      ensures State() == M.AskedToInit(old(State()), surface)
      ensures up == M.InitAnswer(old(surfaces)[surface], answers)
    {
      var record := surfaces[surface];
      activatingSurface := surface;
      if record.kind == M.Window {
        SetWindowHandle(record.window);
        hookCalls := hookCalls + [M.InitWindowSurface(activatingSurface, windowHandle)];
        up := answers.window;
      } else if record.kind == M.Pbuffer {
        hookCalls := hookCalls + [M.InitPbufferSurface(activatingSurface, record.width, record.height)];
        up := answers.pbuffer;
      } else {
        assert hookCalls + [] == hookCalls;
        up := false;
      }
    }

    method ForgetActiveSurface()
      modifies this
      ensures State() == M.ForgetActive(old(State()))
    {
      hasActiveSurface := false;
      activeSurfaceKind := M.NoKind;
      activeSurface := M.NONE;
      windowHandle := M.NO_WINDOW;
    }

    method AdoptActiveSurface(surface: M.Surface) returns (ok: bool)
      modifies this
      ensures M.Outcome(State(), ok) == M.AdoptActive(old(State()), surface)
    {
      if surface !in surfaces {
        return false;
      }
      activeSurface := surface;
      hasActiveSurface := true;
      activeSurfaceKind := surfaces[surface].kind;
      if surfaces[surface].kind == M.Window {
        windowHandle := surfaces[surface].window;
      }
      return true;
    }

    method ResetRuntimeState()
      modifies this
      ensures State() == M.ResetRuntime(old(State()))
    {
      hasActiveSurface := false;
      capabilitiesInitialized := false;
      activeSurfaceKind := M.NoKind;
      activeSurface := M.NONE;
      windowHandle := M.NO_WINDOW;
      currentThreads := map[];
    }

    method ReleaseAll()
      modifies this
      ensures State() == M.ReleaseAll(old(State()))
    {
      ResetRuntimeState();
      surfaces := map[];
      display := M.NONE;
      displayInitialized := false;
    }

    /** The threads are looked at in no particular order. */
    method IsCurrentOnAnyThread(surface: M.Surface) returns (current: bool)
      ensures current <==> M.IsCurrent(State(), surface)
    {
      if surface == M.NONE {
        return false;
      }
      var unseen := currentThreads.Keys;
      while unseen != {}
        invariant unseen <= currentThreads.Keys
        invariant forall t :: t in currentThreads && t !in unseen ==>
          currentThreads[t].draw != surface && currentThreads[t].read != surface
        decreases unseen
      {
        var thread :| thread in unseen;
        if currentThreads[thread].draw == surface || currentThreads[thread].read == surface {
          return true;
        }
        unseen := unseen - {thread};
      }
      return false;
    }

    method DestroyPendingIfUnused(surface: M.Surface)
      modifies this
      ensures State() == M.CollectPending(old(State()), surface)
    {
      if surface !in surfaces || !surfaces[surface].destroyPending {
        return;
      }
      var current := IsCurrentOnAnyThread(surface);
      if current {
        return;
      }
      EraseAndAnnounce(surface);
    }

    /** The erasure `DestroyPendingIfUnused` and `ReleaseSurface` share: the record first, then the
        active surface if it was this one, then the notice. */
    method EraseAndAnnounce(surface: M.Surface)
      modifies this
      ensures State() == M.Drop(old(State()), surface)
    {
      surfaces := surfaces - {surface};
      if activeSurface == surface {
        hookCalls := hookCalls + [M.OnSurfaceReleased(surface)];
        ForgetActiveSurface();
      }
      hookCalls := hookCalls + [M.OnSurfaceForgotten(surface)];
      assert hookCalls == old(hookCalls) + M.DropCalls(old(State()), surface);
    }

    method ReleaseThread(thread: M.ThreadId)
      modifies this
      ensures State() == M.ReleaseThread(old(State()), thread)
    {
      if thread !in currentThreads {
        return;
      }
      var drawSurface := currentThreads[thread].draw;
      var readSurface := currentThreads[thread].read;
      currentThreads := currentThreads - {thread};
      DestroyPendingIfUnused(drawSurface);
      DestroyPendingIfUnused(readSurface);
    }

    method ReleaseSurface(surface: M.Surface)
      modifies this
      ensures State() == M.ReleaseSurface(old(State()), surface)
    {
      if surface !in surfaces {
        return;
      }
      var current := IsCurrentOnAnyThread(surface);
      if current {
        surfaces := surfaces[surface := surfaces[surface].(destroyPending := true)];
        return;
      }
      EraseAndAnnounce(surface);
    }

    method MakeCurrent(thread: M.ThreadId, dpy: M.Display, draw: M.Surface, read: M.Surface, ctx: M.Context,
                       answers: M.HookAnswers) returns (ok: bool)
      modifies this
      ensures M.Outcome(State(), ok) == M.MakeCurrent(old(State()), thread, dpy, draw, read, ctx, answers)
    {
      if draw == M.NONE && read == M.NONE && ctx == M.NONE {
        ReleaseThread(thread);
        return true;
      }
      if !displayInitialized || display != dpy {
        return false;
      }
      ok := BringUp(draw, read, answers);
      if !ok {
        return false;
      }
      if draw == M.NONE || read == M.NONE || ctx == M.NONE {
        return false;
      }
      if !capabilitiesInitialized {
        hookCalls := hookCalls + [M.InitCapabilities];
        if !answers.capabilities {
          return false;
        }
        capabilitiesInitialized := true;
      }
      ReleaseThread(thread);
      currentThreads := currentThreads[thread := M.CurrentState(dpy, draw, read, ctx)];
      return true;
    }

    /** The activation half of `MakeCurrent`. */
    method BringUp(draw: M.Surface, read: M.Surface, answers: M.HookAnswers) returns (ok: bool)
      modifies this
      ensures M.Outcome(State(), ok) == M.BringUp(old(State()), draw, read, answers)
    {
      if !hasActiveSurface {
        if draw != read {
          return false;
        }
        ok := Activate(draw, answers);
        if !ok {
          return false;
        }
      }
      if draw !in surfaces || read !in surfaces {
        return false;
      }
      if draw != read {
        return false;
      }
      if draw != activeSurface {
        ok := Activate(draw, answers);
        return ok;
      }
      return true;
    }

    method Swap(thread: M.ThreadId, dpy: M.Display, draw: M.Surface, answers: M.HookAnswers) returns (ok: bool)
      modifies this
      ensures M.Outcome(State(), ok) == M.Swap(old(State()), thread, dpy, draw, answers)
    {
      if !displayInitialized || display != dpy {
        return false;
      }
      if thread !in currentThreads {
        return false;
      }
      var current := currentThreads[thread];
      if current.display != dpy || current.draw != draw || current.context == M.NONE {
        return false;
      }
      if draw == M.NONE || draw !in surfaces {
        return false;
      }
      if !hasActiveSurface || draw != activeSurface {
        ok := Activate(draw, answers);
        if !ok {
          return false;
        }
      }
      label Active:
      hookCalls := hookCalls + [M.GetPresentFunction];
      if !answers.present {
        return false;
      }
      hookCalls := hookCalls + [M.Present];
      assert hookCalls == old@Active(hookCalls) + [M.GetPresentFunction, M.Present];
      return true;
    }

    /** The window surfaces on `nativeWindow`, each once. */
    method WindowSurfacesOn(nativeWindow: nat) returns (found: seq<M.Surface>)
      ensures forall s :: s in found <==>
        s in surfaces && surfaces[s].kind == M.Window && surfaces[s].window.handle == nativeWindow
      ensures forall i, j :: 0 <= i < j < |found| ==> found[i] != found[j]
    {
      found := [];
      var unseen := surfaces.Keys;
      while unseen != {}
        invariant unseen <= surfaces.Keys
        invariant forall s :: s in found <==>
          s in surfaces && s !in unseen && surfaces[s].kind == M.Window && surfaces[s].window.handle == nativeWindow
        invariant forall i, j :: 0 <= i < j < |found| ==> found[i] != found[j]
        decreases unseen
      {
        var surface :| surface in unseen;
        if surfaces[surface].kind == M.Window && surfaces[surface].window.handle == nativeWindow {
          found := found + [surface];
        }
        unseen := unseen - {surface};
      }
    }
  }
}
