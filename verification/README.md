# MobileGL: verified models

Dafny models, with proofs, of six stateful or algorithmic parts of MobileGL.

- **Surface registry** (`RegistryModel`, `RegistryInvariants`, `RegistryRuns`, `RegistryLaws`, `RegistryPublication`,
  `RegistryHistory`, `RegistryAnswers`, `EGLSurfaceRegistry`).
  The registry's whole state is a value; each public operation is one atomic step of one thread, because every
  operation runs under the registry's lock. `EGLSurfaceRegistry.dfy` is the object with its fields updated in place;
  each method is proved to perform its step. The laws range over arbitrary interleavings of all threads' steps.
  Deferred destruction and binding are those of sections 3.5.5 and 3.7.3 of EGL 1.5.
- **GPU hang watch** (`HangModel`, `WatchModel`, `WatchLaws`, `GpuHangWatch`). The detector's compressed vector is
  related to the whole sample history; the watch's runs are related through a log of what the registrations were
  called with.
- **Client readback** (`Bits`, `ReadbackFormats`, `ReadbackRows`, `ReadbackMeaning`, `ReadbackLayout`,
  `ReadbackStores`). Format tables, bit packing, rounding, and the PACK addressing of section 4.3.1 of the OpenGL 3.3
  core specification, over byte arrays; and what a converted texel holds, told from the names of its format and type.
- **Include-closure gate** (`IncludeModel`, `IncludeClosure`). The recursive walk with its visited set, the search for
  forbidden files, and the backward scan that rebuilds an include chain.
- **Dirty-surface analysis** (`DirtyModel`, `DirtyVerdicts`, `DirtyLimits`, `DirtySurface`). The in-place fixed point
  over the call graph, the match rule, and when a negative verdict can be believed.
- **Moved-line matcher** (`DiffModel`, `DiffPatches`, `DiffReports`, `TextHygiene`). The two passes over a diff, and what
  they report in the diff's own terms.
- **Field ownership** (`OwnershipModel`, `FieldOwnership`, `FieldAdmission`). The gated join, and the masks derived from it.

Check everything with `dafny verify dfyconfig.toml`.

## Where the code does not keep a promise

Each is stated as it is in the code, with the exact condition under which the promise is kept.

- A bind of a surface that is waiting for its last holder - the caller itself - to let go succeeds on a surface the bind
  erases (`RunIsWellBoundExactly`, `RebindingAPendingSurfaceDangles`).
- A bare `ResetRuntimeState` leaves pending surfaces with no holder to collect them (`RunHoldsPendingExactly`,
  `ResettingStrandsAPendingSurface`).
- `MobileGL/MG_Backend/EGLSurfaceRegistry.cpp:31-36` says nobody reads the display field; `MakeCurrent` and `Swap` do
  (184, 249), so another display stops the other threads' swaps until theirs is initialized again
  (`MySwapPresentsExactly`, `AnotherDisplayStopsASwap`).
- After a refused activation the published window handle names the refused window while the old one stays active
  (`RunPublishesExactly`, `RefusedActivationParts`).
- `MobileGL/MG_Backend/ClientReadback.cpp:408` gives the image stride as the larger of image height and slice height;
  the code (417-420) uses the image height alone (`CommentedImageStrideExactly`), and a short row length overlaps rows
  in the same way: `RowsDisjointExactly` says when any do, `ShortImageHeightOverlaps` is an input, and `StoredLast`
  says what memory then holds.
- The 16-round cap of the token fixed point is complete only while no token needs more rounds than that
  (`ExactWhenTimely`, `CapIsTight`), and one expansion of aggregate notices is enough exactly when it is settled:
  nesting alone does no harm (`HoldsRunsExactly`, `NestedNoticesMislead`, `NestedYetSettled`).
- The handles of the hang watch are distinct and non-zero until its 64-bit counter wraps (`WatchRunLaws`).
- `scripts/gen_pipe_field_ownership.py:345-347` says a verb with no stamp row still admits some debts; the code (362-369)
  admits nothing for it (`DescriptionAgreesExactly`, `UnstampedDebtIsNotAdmitted`). Production carries no debt at all
  (759-763, refused at 1193 before the derivation), so the two differ only on tables that still hold some, such as the
  self-test's fixture.

## Model

| member | source | states |
|---|---|---|
| `RegistryInvariants.RunKeepsConsistent` | MobileGL/MG_Backend/EGLSurfaceRegistry.cpp:80-392 | In every interleaving of all threads' operations, from any consistent state: no null surface is registered, an active surface exists iff the active handle is non-null and is then registered, every binding has draw = read, a real surface, display and context |
| `RegistryInvariants.FreshIsConsistent` | MobileGL/MG_Backend/EGLSurfaceRegistry.h:142-153 | A fresh registry is consistent, well bound and holds nothing pending, so the laws of runs start there |
| `RegistryInvariants.StepKeepsConsistent` | MobileGL/MG_Backend/EGLSurfaceRegistry.cpp:14-392 | The same for one step of any operation with any hook answers |
| `RegistryLaws.RunIsWellBoundExactly` | MobileGL/MG_Backend/EGLSurfaceRegistry.cpp:219-220 | Every thread's current surface stays registered throughout a run if and only if no step of it rebinds a surface that awaits destruction and whose last holder is the caller |
| `RegistryLaws.StepKeepsWellBoundExactly` | MobileGL/MG_Backend/EGLSurfaceRegistry.cpp:176-227 | The same boundary for one step, both directions |
| `RegistryLaws.RebindingAPendingSurfaceDangles` | MobileGL/MG_Test/Backend/BackendObjectEglStateTest.cpp:1663-1692 | A concrete five-step run that ends bound to a surface the last bind itself erased |
| `RegistryLaws.RunHoldsPendingExactly` | MobileGL/MG_Backend/EGLSurfaceRegistry.cpp:229-237 | Throughout a run every DestroyPending surface is current on some thread if and only if no bare ResetRuntimeState of the run meets a pending surface |
| `RegistryLaws.StepKeepsPendingHeldExactly` | MobileGL/MG_Backend/EGLSurfaceRegistry.cpp:296-349 | The same for one step, both directions |
| `RegistryLaws.SurfacesAreConserved` | MobileGL/MG_Backend/EGLSurfaceRegistry.cpp:296-349 | For each handle over any run: live before + fresh registrations = OnSurfaceForgotten calls + live after + drops by ReleaseAll |
| `RegistryLaws.DroppedOnlyUnheld` | MobileGL/MG_Backend/EGLSurfaceRegistry.cpp:284-341 | A registration ends only by ReleaseAll or by a destruction at which no thread but the caller holds the surface |
| `RegistryLaws.PendingDiesWithItsLastHolder` | MobileGL/MG_Backend/EGLSurfaceRegistry.cpp:296-321 | A pending surface is erased, and announced exactly once, in the very step in which its last thread leaves it |
| `RegistryLaws.OthersKeepMyBinding` | MobileGL/MG_Backend/EGLSurfaceRegistry.cpp:165-173 | No interleaving of other threads' operations (the two resets aside) moves a thread's binding or the registration it is current on |
| `RegistryLaws.SwapPresentsTheCallersSurface` | MobileGL/MG_Backend/EGLSurfaceRegistry.cpp:247-282 | A swap presents exactly once iff it answers true, and then the active surface is the caller's own registered current draw surface; otherwise nothing is presented; bindings and registrations never move; the exact condition for true |
| `RegistryLaws.MySwapPresentsExactly` | MobileGL/MG_Backend/EGLSurfaceRegistry.cpp:247-282 | After a bind, over any interleaving of other threads' operations: the surface stays registered and the owner's swap brings it back and presents it if and only if the last display initialized in between, if any, is the one it is bound on, the backend presents, and the surface is active or the backend brings it up; under another display the swap changes nothing |
| `RegistryLaws.AnotherDisplayStopsASwap` | MobileGL/MG_Backend/EGLSurfaceRegistry.cpp:31-40 | A concrete run: another thread initializes another display, the binding stays, the swap is refused |
| `RegistryLaws.ResettingStrandsAPendingSurface` | MobileGL/MG_Backend/EGLSurfaceRegistry.cpp:229-237 | A concrete run that ends with a registered, pending surface no thread is current on |
| `RegistryPublication.RunPublishesExactly` | MobileGL/MG_Backend/EGLSurfaceRegistry.cpp:140-158 | Throughout a run CurrentWindowHandle is the active window surface's own window if and only if no step is a refused activation of another window, a handle set by hand, or a registration over the active record that changes it |
| `RegistryPublication.RefusedActivationParts` | MobileGL/MG_Backend/EGLSurfaceRegistry.cpp:140-147 | A concrete run: the activation of a second window is refused and its handle stays published while the first is active |
| `RegistryPublication.StepPublishesExactly` | MobileGL/MG_Backend/EGLSurfaceRegistry.cpp:80-158 | The same for one step, both directions |
| `RegistryLaws.BindProbesExactlyWhenDue` | MobileGL/MG_Backend/EGLSurfaceRegistry.cpp:201-217 | A bind runs the capability probe at most once, and exactly when its surface is up, it has a context, and either the capability flag is down or the bind activates a surface whose own mark is not set; what flag and mark remember is FlagsTellHistory |
| `RegistryHistory.RunIsWhatIsSeen` | MobileGL/MG_Backend/EGLSurfaceRegistry.cpp:24-392 | The registry from outside: after any interleaving its whole state - records with their extents and marks, active surface and kind, published handle, display, bindings, capability flag, hook log - is what an observer writes down who sees only each operation's arguments, its answer and its hook calls |
| `RegistryHistory.StepIsWhatIsSeen` | MobileGL/MG_Backend/EGLSurfaceRegistry.cpp:24-392 | The same for one step from any consistent state |
| `RegistryHistory.FlagsTellHistory` | MobileGL/MG_Backend/EGLSurfaceRegistry.cpp:96-172 | Over runs from a fresh registry: a registered surface is marked activated if and only if the backend has brought it up since it was last registered, and the capabilities are initialized if and only if a probe has succeeded since the last reset and the last first activation |
| `RegistryHistory.BindProbesByHistory` | MobileGL/MG_Backend/EGLSurfaceRegistry.cpp:168-217 | A bind runs the probe if and only if it gets as far as having its surface up and a context, and either no probe has succeeded since the last reset and first activation or the surface has not come up since it was registered |
| `RegistryHistory.DueAfterRegistrationOrReset` | MobileGL/MG_Backend/EGLSurfaceRegistry.cpp:168-237 | So the next bind that brings up a surface not brought up since its registration probes, and so does the next one after a reset |
| `RegistryAnswers.AnswersExactly` | MobileGL/MG_Backend/EGLSurfaceRegistry.cpp:24-392 | For every operation the exact condition under which it answers true, from the state before it and the backend's answers |
| `RegistryAnswers.AsksExactly` | MobileGL/MG_Backend/EGLSurfaceRegistry.cpp:128-163 | A step asks the backend to bring a surface up if and only if it gets that far with a registered surface that is not active; it asks first, once, and with what the surface's own record says |
| `RegistryInvariants.BindAcceptedExactly` | MobileGL/MG_Backend/EGLSurfaceRegistry.cpp:176-227 | MakeCurrent answers true iff display, surface, draw = read, context, activation and probe allow it, decided from the state before the call and the hook answers |
| `RegistryInvariants.RefusedBindEffect` | MobileGL/MG_Backend/EGLSurfaceRegistry.cpp:176-227 | All or nothing: a refused bind changes no thread's binding and no registration |
| `RegistryInvariants.AcceptedBindEffect` | MobileGL/MG_Backend/EGLSurfaceRegistry.cpp:204-226 | An accepted bind leaves the caller current on exactly (display, draw, draw, context), no other thread moved, capabilities initialised, precisely the surfaces it was the last pending holder of erased, and draw active unless it was one of those |
| `RegistryInvariants.ReleaseThreadEffect` | MobileGL/MG_Backend/EGLSurfaceRegistry.cpp:310-321 | Letting go of a binding removes exactly the surface that was pending and held by nobody else, and moves no other thread |
| `RegistryRuns.StepAccount` | MobileGL/MG_Backend/EGLSurfaceRegistry.cpp:14-392 | What any step does to the registered handles, to every thread's binding, to the pending marks and to each announcement count |
| `EGLSurfaceRegistryObject.EGLSurfaceRegistry.InitializeDisplay` | MobileGL/MG_Backend/EGLSurfaceRegistry.cpp:24-49 | The display step of the model, with version 1.5 reported on success |
| `EGLSurfaceRegistryObject.EGLSurfaceRegistry.CreateWindowSurface` | MobileGL/MG_Backend/EGLSurfaceRegistry.cpp:51-54 | Registers, then activates; the answer is that of both |
| `EGLSurfaceRegistryObject.EGLSurfaceRegistry.CreatePbufferSurface` | MobileGL/MG_Backend/EGLSurfaceRegistry.cpp:75-78 | Registers, then activates; the answer is that of both |
| `EGLSurfaceRegistryObject.EGLSurfaceRegistry.ResizeSurface` | MobileGL/MG_Backend/EGLSurfaceRegistry.cpp:56-73 | The resize step: refused for an unregistered surface, otherwise the record takes the extent (at least 1x1) and so does the published handle when the surface is active |
| `EGLSurfaceRegistryObject.EGLSurfaceRegistry.RegisterWindowSurface` | MobileGL/MG_Backend/EGLSurfaceRegistry.cpp:80-103 | The registration step; a live record of the handle is overwritten by one that has never been up, so the bind that brings it up probes (BindProbesByHistory) |
| `EGLSurfaceRegistryObject.EGLSurfaceRegistry.RegisterPbufferSurface` | MobileGL/MG_Backend/EGLSurfaceRegistry.cpp:105-126 | The registration step, non-positive extents refused; the new record has never been up |
| `EGLSurfaceRegistryObject.EGLSurfaceRegistry.Activate` | MobileGL/MG_Backend/EGLSurfaceRegistry.cpp:134-174 | The activation step with the init hook of the surface's kind and the first-activation reset of the probe |
| `EGLSurfaceRegistryObject.EGLSurfaceRegistry.MakeCurrent` | MobileGL/MG_Backend/EGLSurfaceRegistry.cpp:176-227 | The whole state and the answer are those of the make-current step, over which the laws above are proved |
| `EGLSurfaceRegistryObject.EGLSurfaceRegistry.ResetRuntimeState` | MobileGL/MG_Backend/EGLSurfaceRegistry.cpp:229-237 | The bare reset step |
| `EGLSurfaceRegistryObject.EGLSurfaceRegistry.ForgetActiveSurface` | MobileGL/MG_Backend/EGLSurfaceRegistry.cpp:239-245 | No active surface afterwards, nothing else changed |
| `EGLSurfaceRegistryObject.EGLSurfaceRegistry.Swap` | MobileGL/MG_Backend/EGLSurfaceRegistry.cpp:247-282 | The whole state and the answer are those of the swap step |
| `EGLSurfaceRegistryObject.EGLSurfaceRegistry.IsCurrentOnAnyThread` | MobileGL/MG_Backend/EGLSurfaceRegistry.cpp:284-294 | True iff some thread draws to or reads from the surface, by a loop over the threads in any order |
| `EGLSurfaceRegistryObject.EGLSurfaceRegistry.DestroyPendingIfUnused` | MobileGL/MG_Backend/EGLSurfaceRegistry.cpp:296-308 | The collection step |
| `EGLSurfaceRegistryObject.EGLSurfaceRegistry.ReleaseThread` | MobileGL/MG_Backend/EGLSurfaceRegistry.cpp:310-321 | The thread-release step |
| `EGLSurfaceRegistryObject.EGLSurfaceRegistry.ReleaseSurface` | MobileGL/MG_Backend/EGLSurfaceRegistry.cpp:323-341 | Erased at once when current nowhere, else marked pending |
| `EGLSurfaceRegistryObject.EGLSurfaceRegistry.ReleaseAll` | MobileGL/MG_Backend/EGLSurfaceRegistry.cpp:343-349 | Everything back to the initial state, the hook log aside |
| `EGLSurfaceRegistryObject.EGLSurfaceRegistry.SetWindowHandle` | MobileGL/MG_Backend/EGLSurfaceRegistry.cpp:351-354 | The handle alone changes |
| `EGLSurfaceRegistryObject.EGLSurfaceRegistry.AdoptActiveSurface` | MobileGL/MG_Backend/EGLSurfaceRegistry.cpp:360-369 | Adopts a registered surface without asking the backend |
| `EGLSurfaceRegistryObject.EGLSurfaceRegistry.WindowSurfacesOn` | MobileGL/MG_Backend/EGLSurfaceRegistry.cpp:371-378 | Exactly the registered window surfaces on that native window, each once |
| `EGLSurfaceRegistryObject.EGLSurfaceRegistry.SetWindowSurfaceExtent` | MobileGL/MG_Backend/EGLSurfaceRegistry.cpp:380-392 | The extent step |
| `HangModel.VectorIsTheStreaks` | MobileGL/MG_Backend/GpuHangWatch.cpp:130-148 | Refinement of the whole history: after any samples, (id, since) is in the vector iff id has run without a break from a sample of time since to the last sample |
| `HangModel.DetectionIsExact` | MobileGL/MG_Backend/GpuHangWatch.cpp:130-148 | A non-zero id is named iff the budget is non-zero and some submission with a non-zero id has a streak that reached it; the named one has |
| `HangModel.FirstOverdueIsNamed` | MobileGL/MG_Backend/GpuHangWatch.cpp:130-148 | Of several overdue submissions the one named is the first in the order of the last sample that has a non-zero id |
| `HangModel.RunningMsIsTheStreak` | MobileGL/MG_Backend/GpuHangWatch.cpp:150-154 | RunningMs of a running submission is the age of its streak |
| `HangModel.HangIsNamedInTime` | MobileGL/MG_Backend/GpuHangWatch.h:55-65 | Samples at most P ms apart and one submission at a time: a never-ending one is named, nothing before it, between budget and budget + P after the first sample that saw it, and RunningMs then reports exactly that age |
| `WatchLaws.WatchRunLaws` | MobileGL/MG_Backend/GpuHangWatch.cpp:79-94 | Over any interleaving of register, poll and unregister: handles non-zero and never reused; at most one hang per registration; no sampler or callback after a false answer, a hang or unregister; every reported hang is a true one by that registration's own samples, and every sample that shows one is reported at once - all of it if and only if the run makes fewer registrations than the 64-bit counter has values |
| `WatchLaws.RunKeepsOrder` | MobileGL/MG_Backend/GpuHangWatch.cpp:79-185 | Until the 64-bit counter has used up its handles each entry's detector is what its own samples alone make of it, so entries never affect each other |
| `WatchLaws.PollSamplesEach` | MobileGL/MG_Backend/GpuHangWatch.cpp:79-94 | A poll samples every live entry, once each and in the order of the entries, and no other |
| `WatchLaws.CounterWraps` | MobileGL/MG_Backend/GpuHangWatch.cpp:156-173 | The registration after the last handle is handed 0 |
| `GpuHangWatchObjects.Detector.Observe` | MobileGL/MG_Backend/GpuHangWatch.cpp:130-148 | The rebuilt vector and the named id are those of the model step |
| `GpuHangWatchObjects.Detector.RunningMs` | MobileGL/MG_Backend/GpuHangWatch.cpp:150-154 | The elapsed time of the first matching entry, 0 if there is none |
| `GpuHangWatchObjects.GpuHangWatch.Register` | MobileGL/MG_Backend/GpuHangWatch.cpp:156-173 | One more live entry under a fresh handle, or 0 and nothing when it may not register |
| `GpuHangWatchObjects.GpuHangWatch.PollOnce` | MobileGL/MG_Backend/GpuHangWatch.cpp:79-94 | Every live entry sampled once, in order, with its own report; the calls made and the Done flags as the model says |
| `GpuHangWatchObjects.GpuHangWatch.Unregister` | MobileGL/MG_Backend/GpuHangWatch.cpp:175-185 | The first entry with the handle goes, all others stay |
| `ReadbackLayout.StoredLast` | MobileGL/MG_Backend/ClientReadback.cpp:409-446 | For any rows, overlapping or not: a destination byte holds what the last row stored over it put there, and what it held before if there is none |
| `ReadbackLayout.StoredExactly` | MobileGL/MG_Backend/ClientReadback.cpp:409-446 | For rows that share no address, byte b of converted row (k, j) is at exactly skip + k*imageStride + j*rowStride + b and every other destination byte is unchanged |
| `ReadbackLayout.LayoutKeepsRowsApart` | MobileGL/MG_Backend/ClientReadback.cpp:394-433 | RowLength zero or >= width and image rows >= slice height: every row ends before any later one begins |
| `ReadbackLayout.RowsDisjointExactly` | MobileGL/MG_Backend/ClientReadback.cpp:409-446 | For any parameters: no two rows share an address if and only if there are no bytes to store, or each row ends before the next of its slice begins and the last row of a slice before the next slice, wherever there is a next one |
| `ReadbackLayout.ImagesDisjointExactly` | MobileGL/MG_Backend/ClientReadback.cpp:417-420 | With RowLength zero or >= width: two rows share an address exactly when there are bytes to store, several slices, and an image height in force that is smaller than the slice |
| `ReadbackLayout.ShortImageHeightOverlaps` | MobileGL/MG_Backend/ClientReadback.cpp:404-420 | Concrete parameters with image height 1 and slice height 2: the stride is half the commented one and two rows share an address |
| `ReadbackLayout.CommentedImageStrideExactly` | MobileGL/MG_Backend/ClientReadback.cpp:404-420 | When the comment's max(IMAGE_HEIGHT, slice height) stride is what the code computes: iff no smaller image height is in force or rows have no stride |
| `ReadbackLayout.AlignRowIsLeast` | MobileGL/MG_Backend/ClientReadback.cpp:394-397 | The row stride is the least multiple of the alignment that holds the row |
| `ReadbackLayout.RowStrideIsLeast` | MobileGL/MG_Backend/ClientReadback.cpp:413-420 | For all parameters: the row stride is the least multiple of the alignment that holds RowLength pixels, or width pixels without a positive RowLength, and the image stride is the image height in force times it |
| `ReadbackLayout.PixelAddress` | MobileGL/MG_Backend/ClientReadback.cpp:417-443 | For all parameters: pixel (k, j, col) lies at (SKIP_IMAGES + k) image strides, (SKIP_ROWS + j) row strides and (SKIP_PIXELS + col) pixels, negative skips counting as none and the image skip only where image parameters apply |
| `ReadbackLayout.SkippedPixelAddress` | MobileGL/MG_Backend/ClientReadback.cpp:421-425 | A pixel lies where, under the same parameters without skips, the pixel lies that is as many images, rows and pixels further on |
| `ReadbackLayout.SwappedByte` | MobileGL/MG_Backend/ClientReadback.cpp:435-439 | Byte i of a swapped row comes from the mirrored place of its group |
| `ReadbackLayout.SwappedGroup` | MobileGL/MG_Backend/ClientReadback.cpp:435-439 | Group q of a byte-swapped row is group q reversed |
| `ReadbackLayout.SwapTwice` | MobileGL/MG_Backend/ClientReadback.cpp:435-439 | Swapping twice gives the row back |
| `ReadbackStores.StoreClientRows` | MobileGL/MG_Backend/ClientReadback.cpp:409-446 | The destination afterwards is the store function of the finished (swapped) rows over what it held, at the addresses PixelAddress gives |
| `ReadbackStores.StoreWideRowsToClient` | MobileGL/MG_Backend/ClientReadback.cpp:452-472 | Refused, with memory untouched, for a pair with no client form; otherwise the store of all converted rows |
| `ReadbackStores.StorePackedWordsToClient` | MobileGL/MG_Backend/ClientReadback.cpp:474-489 | Refused unless the type is a 4-byte packed one; otherwise the words verbatim at the same addresses |
| `ReadbackStores.TexelLandsInMemory` | MobileGL/MG_Backend/ClientReadback.cpp:409-472 | End to end: the client texel (k, j, col) lies at (SKIP_IMAGES + k, SKIP_ROWS + j, SKIP_PIXELS + col) and is the conversion of the wide texel at place ((k * height + j) * width + col) of the stack, its bytes as they are or, if asked, mirrored within each component or packed word |
| `ReadbackStores.WordLandsInMemory` | MobileGL/MG_Backend/ClientReadback.cpp:474-489 | The same for packed words, which are stored as they are or with their four bytes in reverse |
| `ReadbackLayout.FinishedPiece` | MobileGL/MG_Backend/ClientReadback.cpp:435-439 | No swap group straddles two pixels: swapping a row swaps each pixel on its own |
| `ReadbackRows.ConvertWideReadbackRow` | MobileGL/MG_Backend/ClientReadback.cpp:218-392 | The conversion of every texel, side by side, is written and no byte beyond it; what a converted texel holds, from byte to byte, is stated by the ReadbackMeaning rows |
| `ReadbackRows.ConvertedRowAt` | MobileGL/MG_Backend/ClientReadback.cpp:218-392 | Texel col of the converted row is the conversion of texel col of the wide row and of no other |
| `ReadbackRows.WritePackedInteger` | MobileGL/MG_Backend/ClientReadback.cpp:236-246 | Writes the packed word of one integer pixel and no byte beside it |
| `ReadbackRows.WriteIntegerComponents` | MobileGL/MG_Backend/ClientReadback.cpp:247-284 | Writes the clamped components of one integer pixel and no byte beside them |
| `ReadbackRows.WritePackedNormalized` | MobileGL/MG_Backend/ClientReadback.cpp:321-341 | Writes the packed word of one normalized pixel and no byte beside it |
| `ReadbackRows.WriteNormalizedComponents` | MobileGL/MG_Backend/ClientReadback.cpp:342-385 | Writes the components of one normalized or float pixel and no byte beside them |
| `ReadbackFormats.PackedPixelExtracts` | MobileGL/MG_Backend/ClientReadback.cpp:236-246 | For every packed integer type and all sources the client extracts the mapped source clamped to the field, the field being where LayoutFollowsName says |
| `ReadbackFormats.PackWordExtracts` | MobileGL/MG_Backend/ClientReadback.cpp:187-203 | Packing loses nothing: every field comes back out of the word, which fits its bytes |
| `ReadbackFormats.PackedLayoutsAreGood` | MobileGL/MG_Backend/ClientReadback.cpp:92-144 | Every packed type's fields are disjoint and inside its 1, 2 or 4 byte word; where each lies is LayoutFollowsName |
| `ReadbackMeaning.LayoutFollowsName` | MobileGL/MG_Backend/ClientReadback.cpp:92-144 | For every type: it is packed iff its name lists widths, its word is as long as they are together, and component ch has the width its name gives it - from the left, in a REV type from the right - and starts where the widths listed to its right end |
| `ReadbackMeaning.ConvertibleByName` | MobileGL/MG_Backend/ClientReadback.cpp:146-182 | For every format and type: a pair converts iff the type is known, a packed one lists as many fields as the format names channels (5_9_9_9_REV: three), and no float type meets an integer format; and how many bytes a pixel has |
| `ReadbackMeaning.WideChannelMeans` | MobileGL/MG_Backend/ClientReadback.cpp:229-320 | From the texel's own bytes: an integer format's source is the 32-bit word, signed iff the wide type is; otherwise a byte or short is n / highest, signed ones not below -1, and anything else the float its bits encode |
| `ReadbackMeaning.IntegerTexelReadsBack` | MobileGL/MG_Backend/ClientReadback.cpp:229-284 | Byte to byte, for every integer format and unpacked integer type: component ch is exactly the 32-bit word of the channel the format names there, clamped to the range of the type |
| `ReadbackMeaning.NormalizedTexelReadsBack` | MobileGL/MG_Backend/ClientReadback.cpp:286-377 | Byte to byte, for every other format and unpacked integer type: component ch is the integer nearest to the value of the channel the format names there, clamped to [0, 1] or [-1, 1] and scaled to the highest value of the type |
| `ReadbackMeaning.FloatTexelReadsBack` | MobileGL/MG_Backend/ClientReadback.cpp:286-385 | And for the float types: that value as the type encodes it |
| `ReadbackMeaning.NormalizedTexelComesBack` | MobileGL/MG_Backend/ClientReadback.cpp:286-377 | GL_RGBA with the wide normalized type itself gives the texel's bytes back, except that the lowest code of a signed type reads as the one above it |
| `ReadbackMeaning.IntegerTexelComesBack` | MobileGL/MG_Backend/ClientReadback.cpp:229-284 | GL_RGBA_INTEGER with the wide 32-bit type itself gives the texel's bytes back |
| `ReadbackMeaning.PackedIntegerTexelReadsBack` | MobileGL/MG_Backend/ClientReadback.cpp:236-246 | Byte to byte, for every integer format and packed type: the client's word is the sum of the named channels, each clamped to its field, at the places the type's name gives them |
| `ReadbackMeaning.PackedNormalizedTexelReadsBack` | MobileGL/MG_Backend/ClientReadback.cpp:333-341 | Byte to byte, for every other format and packed type: the word is the sum of the named channels, each clamped to [0, 1] and rounded to the nearest step of its field, at the places the name gives them |
| `ReadbackMeaning.PackedFloatTexelReadsBack` | MobileGL/MG_Backend/ClientReadback.cpp:322-332 | The small floats of the named channels side by side, or all three in one shared-exponent word |
| `ReadbackFormats.ComponentExtracts` | MobileGL/MG_Backend/ClientReadback.cpp:247-284 | Component ch of an unpacked integer pixel reads back as the mapped source clamped to the type's range |
| `ReadbackFormats.ClientFormatExtracts` | MobileGL/MG_Backend/ClientReadback.cpp:27-90 | For every integer client format: component ch of a packed or unpacked pixel reads back as the channel the format names there, clamped |
| `ReadbackFormats.SwapGroupDividesPixel` | MobileGL/MG_Backend/ClientReadback.cpp:146-184 | The swap group size divides the pixel size |
| `ReadbackFormats.RescaleRoundTrips` | MobileGL/MG_Backend/ClientReadback.cpp:333-339 | For 1 <= M <= N and f <= M: rounding f/M to N steps and back to M steps gives f |
| `ReadbackFormats.NarrowFieldSurvivesUNorm8` | MobileGL/Config.h:373-375 | An n-bit field goes to UNorm8 and back without loss for n <= 8 |
| `ReadbackFormats.NarrowWordsSurviveWidening` | MobileGL/Config.h:373-375 | A client word whose fields have at most 8 bits, kept as UNorm8 channels and converted back, is the same word |
| `IncludeClosure.TextClosureOf` | scripts/check_include_closure.py:264-295 | Terminates on any graph, cycles included, and lists every file reachable from the TU exactly once and nothing else |
| `IncludeModel.ClosureIsReachability` | scripts/check_include_closure.py:264-295 | Any complete walk from nothing lists exactly the reachable files |
| `IncludeClosure.TextClosure.Walk` | scripts/check_include_closure.py:276-295 | What one nested walk adds: what was listed stays, the new entries hang below the lines that pulled them in, all their includes are seen |
| `IncludeClosure.FindViolations` | scripts/check_include_closure.py:298-309 | One report for each entry whose repository path has a forbidden prefix and no allowed one, in list order, naming the first forbidden prefix of the list that fits |
| `IncludeClosure.TextViolations` | scripts/check_include_closure.py:440-449 | The gate reports nothing iff no reachable repository file breaks a rule it is not excused from |
| `IncludeClosure.ChainFor` | scripts/check_include_closure.py:312-323 | For every entry of a walked list the chain is a genuine include path from the TU to the entry, as long as the entry is deep, numbered 1, 2, ..., each file shown by its repository path if it has one and by its raw path otherwise |
| `IncludeModel.ChainedIsReachable` | scripts/check_include_closure.py:276-295 | Every entry of a walked list is reachable |
| `DirtySurface.WrittenTokens` | scripts/gen_pipe_dirty_surface.py:995-1031 | The bounded in-place loop ends with the 16-round map: it holds every token within 16 calls and none that no transitive callee records |
| `DirtyModel.RoundsHoldArrivals` | scripts/gen_pipe_dirty_surface.py:1017-1031 | After n rounds a function holds a token if and only if some call chain brings it within n rounds, where a chain costs one round for its last call and one for each earlier call whose caller is listed before its callee |
| `DirtyModel.ExactWhenTimely` | scripts/gen_pipe_dirty_surface.py:1017-1031 | n rounds end with exactly the union over all transitive callees if and only if no recorded token needs more than n rounds by that count |
| `DirtyModel.RoundsCover` | scripts/gen_pipe_dirty_surface.py:1017-1031 | After r rounds every function has the tokens of all functions within r calls |
| `DirtyModel.RoundsSound` | scripts/gen_pipe_dirty_surface.py:1017-1031 | No round attributes a token that no transitive callee records |
| `DirtyModel.ExactWhenStable` | scripts/gen_pipe_dirty_surface.py:1017-1031 | Ending with nothing moved is the same as being complete |
| `DirtyModel.EnoughRounds` | scripts/gen_pipe_dirty_surface.py:1017-1031 | If no chain needs more than n calls, n rounds are complete |
| `DirtyModel.StableStays` | scripts/gen_pipe_dirty_surface.py:1017-1031 | Leaving the loop once nothing moved is the same as running it to the cap |
| `DirtyLimits.CapIsTight` | scripts/gen_pipe_dirty_surface.py:1017-1031 | For every r there is a program of call depth r + 1 for which r rounds are not complete |
| `DirtySurface.AggregateTokens` | scripts/gen_pipe_dirty_surface.py:1034-1046 | Each aggregate gets the union of what its cases' callees write |
| `DirtySurface.ExpandAggregates` | scripts/gen_pipe_dirty_surface.py:1049-1057 | Exactly the tokens with one level of notices replaced by what they write |
| `DirtySurface.SplitTokens` | scripts/gen_pipe_dirty_surface.py:1291-1301 | Exactly the members and the known fields of each |
| `DirtySurface.MatchWrites` | scripts/gen_pipe_dirty_surface.py:1304-1323 | The early-returning loop gives the order-free match rule, token by token |
| `DirtySurface.DeriveBitAnswers` | scripts/gen_pipe_dirty_surface.py:1336-1386 | One verdict for exactly the claimed (mutator, bit) answers, the render bits aside: UNDECIDED if and only if the mutator has no body, the bit no resolved shutter, the body a taint, or nothing matches but some shutter token is written outside; otherwise what the tokens decide |
| `DirtyVerdicts.VerdictMeans` | scripts/gen_pipe_dirty_surface.py:1350-1386 | The same for one answer, on the tables |
| `DirtyVerdicts.MatchMeans` | scripts/gen_pipe_dirty_surface.py:1304-1323 | SUPPORTED iff a member on both sides has a written field that is a read field, either of which may be every field; COARSE iff not, and of some member on both sides one side knows no field |
| `DirtyVerdicts.MovedMeans` | scripts/gen_pipe_dirty_surface.py:1049-1057 | A function moves exactly the tokens attributed to it that are no notices, and what the functions write that a case of a notice attributed to it calls |
| `DirtyVerdicts.MovedRuns` | scripts/gen_pipe_dirty_surface.py:1049-1057 | Over an exact map nothing is moved that is not written when the function runs |
| `DirtySurface.MovedBy` | scripts/gen_pipe_dirty_surface.py:1919-1919 | Every function's tokens with its notices expanded |
| `DirtySurface.BitAnswers` | scripts/gen_pipe_dirty_surface.py:1916-1919 | End to end, from bodies to verdicts: one verdict per claimed answer; every UNDER_FIRING one rests on a body and a resolved shutter nothing of which is written outside; and if no token needs more than 16 rounds, the expansion is settled and fields come with members, it is true of all that runs with its mutator |
| `DirtyVerdicts.UnderFiringIsSound` | scripts/gen_pipe_dirty_surface.py:1336-1386 | With an exact map and a settled expansion, UNDER_FIRING means the mutator has a body and the bit a resolved shutter, nothing that runs with the mutator, by any mixture of calls and notices, records a taint or a write to a field the shutter reads, and nothing of the shutter is written outside |
| `DirtyVerdicts.UnnestedUnderFiringIsSound` | scripts/gen_pipe_dirty_surface.py:1336-1386 | The same where no notice writes through another |
| `DirtyVerdicts.HoldsRunsExactly` | scripts/gen_pipe_dirty_surface.py:1049-1057 | Over an exact map, one expansion of the notices holds everything written when a function runs if and only if whatever a notice writes through another one is in it already |
| `DirtyLimits.NestedNoticesMislead` | scripts/gen_pipe_dirty_surface.py:1049-1057 | Concrete tables with an unsettled expansion for which UNDER_FIRING is wrong |
| `DirtyLimits.NestedYetSettled` | scripts/gen_pipe_dirty_surface.py:1049-1057 | Concrete tables with a nested notice that does no harm |
| `DiffPatches.HunkRead` | scripts/check_text_hygiene.py:561-569 | Any hunk, whatever its texts look like, scanned in any state: its removed texts are counted, and its added texts go to the file in force and no other, numbered from the header's start on |
| `DiffPatches.FileRead` | scripts/check_text_hygiene.py:556-569 | Any file of the diff adds the lines of its hunks to the file its +++ line names, whatever was scanned before |
| `DiffPatches.DiffRead` | scripts/check_text_hygiene.py:550-569 | Over a whole zero-context diff the first pass collects exactly the diff's removed texts and, for each file, exactly the lines the diff adds to it |
| `DiffPatches.DiffKeepsTheSurplus` | scripts/check_text_hygiene.py:570-574 | Over all files together a text is kept exactly max(0, added - removed) times, counted in the diff's own hunks, in whatever order the files come |
| `DiffModel.FileKeepsTheLate` | scripts/check_text_hygiene.py:570-574 | Which of a text's added lines are the moves: the first ones, in the order of the files and of their lines, as many as are removed; exactly the later ones are reported |
| `DiffPatches.UnreadHeader` | scripts/check_text_hygiene.py:558-567 | After a hunk header that does not parse, removed and added lines count for nothing until the next one that does |
| `DiffReports.DiffIsReportedExactly` | scripts/check_text_hygiene.py:550-581 | End to end for a diff with every new file in one place and its hunks in order: each text is reported exactly max(0, added - removed) times, and each file's spans are maximal, increasing, non-adjacent ranges of lines the diff adds to it |
| `DiffModel.SpansAreTheLines` | scripts/check_text_hygiene.py:572-580 | The spans cover exactly the reported lines, as maximal, increasing, non-adjacent ranges |
| `DiffModel.KeptWasAdded` | scripts/check_text_hygiene.py:570-581 | Every reported line was added, in the same order |
| `DiffReports.SpansReportKept` | scripts/check_text_hygiene.py:572-580 | Of lines with increasing numbers the spans cover exactly the kept ones |
| `DiffReports.AddedLinesIncrease` | scripts/check_text_hygiene.py:550-569 | When the hunks of a file are in order, the lines it gains have increasing numbers |
| `TextHygiene.UnmovedLines.ReadLine` | scripts/check_text_hygiene.py:556-569 | One diff line moves the counter, the cursor and the lists as the scan step does, of which HunkRead, FileRead and DiffRead say what it reads |
| `TextHygiene.UnmovedLines.ReportFile` | scripts/check_text_hygiene.py:571-580 | One file of the second pass: its ranges and the removals left |
| `TextHygiene.UnmovedRanges` | scripts/check_text_hygiene.py:550-581 | The result holds, for every file with a reported line, the spans of those lines, and no other file; of any zero-context diff in order, exactly its surplus |
| `FieldOwnership.Build` | scripts/gen_pipe_field_ownership.py:444-520 | The join succeeds iff every gate holds; then every field is in exactly the class its derivation or its only row gives, with that row's phase and reason, exactly the sticky fields have their forward rows, the argument rows are those given, and the four counts are those of the classes and sum to the number of fields |
| `OwnershipModel.AcceptableMeans` | scripts/gen_pipe_field_ownership.py:455-517 | The gates, row by row: which hand-written rows, forwards and argument exceptions stand |
| `FieldOwnership.BuiltMeans` | scripts/gen_pipe_field_ownership.py:447-520 | What the result says entry by entry: the derived class and phase of every supplied field, the class, phase and reason of every row, the forward of every sticky field, and each count as the size of its class |
| `OwnershipModel.CountsPartition` | scripts/gen_pipe_field_ownership.py:519-520 | Any assignment of the four classes to all fields has class sizes that sum to the number of fields |
| `FieldAdmission.BuildAdmitted` | scripts/gen_pipe_field_ownership.py:312-384 | Answers iff every stamped verb has a class and no debt is numbered past 127; then bit f of verb v's mask is set iff the admission rule holds, and the sorted list spells every admitted f@v as often as v is asked about and nothing else |
| `OwnershipModel.AdmittedMeans` | scripts/gen_pipe_field_ownership.py:355-381 | The rule on the tables: stamped, in class BARRIER_PULLED, bit index set in the mask of the verb's class, and every stamping op waits or the phase is not owed |
| `OwnershipModel.HasBitMeans` | scripts/gen_pipe_field_ownership.py:376-381 | Bit i of a mask in arithmetic: word i / 64 divided by 2^(i % 64) is odd |
| `FieldAdmission.ListedExactly` | scripts/gen_pipe_field_ownership.py:381-384 | f@v is in the list iff the admission rule holds for field f and a verb v asked about, as no other pair has its spelling |
| `FieldAdmission.SpellIsInjective` | scripts/gen_pipe_field_ownership.py:382-382 | The spelling of a pair tells its field and verb |
| `FieldAdmission.SortNames` | scripts/gen_pipe_field_ownership.py:384-384 | The strings in order, each as often as before |
| `FieldAdmission.AtMostMeans` | scripts/gen_pipe_field_ownership.py:384-384 | The order of the list: a prefix first, otherwise by the first code points that differ |
| `FieldAdmission.AdmitVerb` | scripts/gen_pipe_field_ownership.py:370-384 | The same for one stamped verb |
| `FieldAdmission.WithBitSets` | scripts/gen_pipe_field_ownership.py:381-381 | Setting bit i of a two-word mask sets it, leaves the other 127 alone and keeps 64-bit words |
| `FieldAdmission.DescriptionAgreesExactly` | scripts/gen_pipe_field_ownership.py:345-369 | The code admits for a verb what the description does if and only if the verb is stamped or its class holds no debt that this phase does not owe |
| `FieldAdmission.UnstampedDebtIsNotAdmitted` | scripts/gen_pipe_field_ownership.py:345-369 | Concrete tables stamping another verb: a debt that the description admits and the code does not |
| `OwnershipModel.FewerWaitsAdmitLess` | scripts/gen_pipe_field_ownership.py:355-380 | Taking the wait from any ops can only shrink what a verb admits |
| `FieldAdmission.LosingAWaitShrinksTheMask` | scripts/gen_pipe_field_ownership.py:679-685 | The same read off the masks the predicate tests: every bit set afterwards was set before |

## Left out

- Hooks: what the backend does is a parameter (`HookAnswers`), and a hook that calls back into the registry under its
  recursive mutex is not modelled; no operation asks the same fallible hook twice, so one answer each is enough.
- Mutex, condition variable, watch thread, clock and environment: each locked operation or poll is one atomic step, and
  thread id and time are parameters.
- Native window handles are opaque values; state that none of the modelled operations reads or writes is not kept.
- `HangModel.HangIsNamedInTime`: for non-decreasing sample times and one submission at a time, the header's own setting.
- `HangModel.DetectionIsExact`: speaks of submissions with a non-zero id, because the answer 0 means none; the only
  producer numbers them from 1 (`MobileGL/MG_Backend/DirectVulkan/Renderer/GpuProgressMarkers.h:98`).
- Sizes and offsets of readback are unbounded naturals: wrap-around of `size_t` is not modelled.
- Floating point is exact real arithmetic with `llround` as round half away from zero; half floats and the
  F11/F10/RGB9E5 encoders are a parameter (`FloatCodec`), as their source is not part of this model.
- `ReadbackMeaning.FloatTexelReadsBack`: for encoded values that fit the bytes of their type, as the encoders' result
  types guarantee.
- `ReadbackMeaning.PackedFloatTexelReadsBack`: for encoded values that fit their fields, for the same reason.
- Host byte order is taken to be little-endian, for the bytes written and for the wide texels read.
- Wide texels of a type narrower than the conversion reads are left out: it would read past the end of their buffer.
- The row-filling callback of `StoreClientRows` is given as the table of rows it would produce.
- Reading include lines from text and resolving them to files: the walk starts from the resolved lines of each file.
- The compiler-transcript mode of the include gate, and Python's recursion limit.
- Extraction of writes, calls, comments and tables by regular expressions: the analyses start from tokens and tables. The
  property of the extractor that a recorded field write also records its member
  (`scripts/gen_pipe_dirty_surface.py:829-830`, 841-842) is a premise of the soundness lemma and of `DirtySurface.BitAnswers`.
- The order and detail texts of the dirty-surface verdicts, and of the reports of all scripts.
- Hunk headers and trailing white space in the moved-line matcher are read by parameters (`Syntax`).
- `DiffReports.DiffIsReportedExactly`: for zero-context diffs that name each new file once and its hunks in order, as a
  comparison of two trees does; splitting the diff's text into lines is left out.
- The retiring-phase tokeniser (`owed`) and `str.strip` are parameters of the ownership derivation; the generated C++ text
  and the stamp-row cross-check are not modelled.
- Configuration knobs, capability tables, symbol and licence checks: wide but without hard behaviour.
