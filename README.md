# waypositor display core, modelled in Dafny

waypositor is a Wayland compositor. This model covers the part of
`src/compositor.cpp` that drives the monitors:

- how a connector's best mode is chosen (`Connector::find_best_mode`);
- how a CRTC is chosen for a connector (`Encoder::has_crtc`,
  `DeviceManager::find_crtc_for_connector`);
- how the device manager seeds its CRTC pool in `create` and reconciles the
  connector-to-output map on hot-plug in `update_connections`;
- one output's present cycle, which is class `Display` with its two
  front-buffer locks and its page-flip flag, together with
  `drm::begin_page_flip`, the flip-completion handler and the framebuffer
  cache of `gbm::FrontBuffer::ensure_framebuffer`;
- the lock handle inside `gbm::FrontBuffer` and the buffer releases its
  defaulted move operations cause.

The kernel (DRM), allocator (GBM) and rendering (EGL/GL) calls are oracle
inputs. Each one is a boolean or a value the caller of an operation supplies,
such as `Attempt` for one present, or `ConnectorProbe` and `Snapshot` for one
resource read. The result of every call is therefore a parameter, and the
model fixes what the code does with it.

Files and modules:

- `drm_types.dfy` (`DrmTypes`): fixed-width integers, `Option`, and the value
  records that the kernel and a resource snapshot yield.
- `best_mode.dfy` (`BestMode`): `find_best_mode` as a recursive scan. It
  returns the index of the chosen mode.
- `crtc_selection.dfy` (`CrtcSelection`): `has_crtc` (with the bit it reads), plus the CRTC search as
  functions. The search is characterised as "the first qualifying
  (encoder, CRTC index) pair".
- `framebuffer_cache.dfy` (`FrameBufferCache`): `ensure_framebuffer`. Each
  buffer object's user data is modelled as one side table.
- `output.dfy` (`Output`): the `Display` class, proved against pure step
  functions.
- `front_buffer_handle.dfy` (`FrontBufferHandle`): the lock handle's
  lifetime.
- `device_manager.dfy` (`Devices`): the `DeviceManager` class, proved against
  a pure reconciliation function on the abstract state. That state is each
  tracked connector's CRTC, plus the pool.

Where the code does something its names do not suggest, the model follows
the code:

- **Membership test (line 988).** The test that chooses a CRTC reads
  `mUnusedCrtcs.find(crtc_id) == mUnusedCrtcs.end()`, so a CRTC qualifies
  only while it is *absent* from the pool named "unused". The model keeps
  that test. Its consequences are proved:
  - the chosen CRTC is never in the pool, so the erase at line 1074 removes
    nothing and the pool never shrinks;
  - a CRTC that enters the pool (for example, one released by an unplug) is
    never handed out again;
  - since `create` seeds the pool with every CRTC of the snapshot, a manager
    never creates an output for a snapshot whose CRTCs it was seeded with.
- **Unlisted connectors.** `update_connections` only visits the connectors
  that the new resource read lists. A tracked connector that is no longer
  listed keeps its output and its CRTC.
- **No mode set after hot-plug.** `update_connections` creates and stores
  the new `Display`, but it never calls `set_mode` on it.
- **No pending-flip assertion.** `begin_swap_buffers` asserts that a current
  front buffer exists. It does not assert that no flip is pending.
- **Return value of `handle_event`.** `Display::handle_event` returns the
  value of `drmHandleEvent` converted to `bool`, which is `true` when reading
  the event queue FAILED.
- **Defaulted moves of the lock handle.** `gbm::FrontBuffer::Handle` declares
  its move constructor and move assignment as defaulted, so they copy the
  two pointers:
  - the moved-from handle still reads as holding a lock;
  - the assigned-to handle drops its old lock without releasing it;
  - the destructor of a moved-from local releases the buffer that the slot
    now holds.

  The model shows this as written in two places:
  - `FrontBufferHandle`: the committed lock is released while it is still
    held, the previous lock is never released, and after
    `finish_swap_buffers` both slots hold the same lock;
  - `Output.FinishSwapStep`: the next slot keeps its buffer.

## Model

| member | source | states |
|---|---|---|
| BestMode.Scan | src/compositor.cpp:183-197 | from any position whose prefix holds no preferred mode: a preferred mode anywhere means the first preferred index is returned; otherwise the result is None exactly when every area is 0, else the first index of largest positive area |
| BestMode.FindBestMode | src/compositor.cpp:183-197 | the first preferred mode wins; without one, the first mode of strictly largest area wins; None ("No mode found") exactly when no preferred mode exists and every area is 0 |
| BestMode.PreferredWinsOverLargerArea | src/compositor.cpp:188 | the first preferred mode is returned whatever the areas of the modes before it |
| BestMode.LargestAreaWins | src/compositor.cpp:189-193 | without a preferred mode, the first index of largest positive area is the answer (ties keep the earlier mode) |
| BestMode.NoModeFound | src/compositor.cpp:195-196 | no preferred mode and every area 0 (including the empty list) gives None |
| BestMode.WorkedExamples | src/compositor.cpp:183-197 | a preferred 1280x720 beats 1920x1080; without a preferred mode 1920x1080 beats 800x600 and 640x480; an empty list gives None |
| CrtcSelection.HasCrtc | src/compositor.cpp:143-145 | the test of `possible_crtcs` against `1 << index` holds exactly when bit `index` of the mask, counted from the least significant bit, is set |
| CrtcSelection.MaskTestIsBitOf | src/compositor.cpp:143-145 | for every mask and every index below 32, masking with `1 << index` reads bit `index` (proved by induction on the index) |
| CrtcSelection.CrtcFrom | src/compositor.cpp:986-990 | the inner loop returns None exactly when no index from i on is allowed by the encoder and passes the membership test, and otherwise the CRTC at the first such index |
| CrtcSelection.CrtcForEncoders | src/compositor.cpp:980-994 | a returned CRTC belongs to the snapshot and is not in the pool |
| CrtcSelection.CrtcForEncodersIsFirstQualifying | src/compositor.cpp:980-994 | the search finds nothing exactly when no (encoder, CRTC index) pair qualifies; otherwise it returns the CRTC of the first qualifying pair, encoders in list order and CRTCs in snapshot order, unresolved encoders skipped |
| CrtcSelection.FullPoolYieldsNoCrtc | src/compositor.cpp:988-989 | when the pool holds every CRTC of the snapshot, no connector gets a CRTC |
| CrtcSelection.WorkedExampleAsWritten | src/compositor.cpp:143-145 | an encoder with mask 0b100 over CRTCs a, b, c, d gets c exactly when c is not in the pool, and nothing otherwise |
| FrameBufferCache.Ensure | src/compositor.cpp:413-437 | a cached framebuffer is returned with the table unchanged; a framebuffer is returned exactly when one was cached or creation succeeds; a newly created framebuffer is the id creation returned, and is attached to the buffer object; failure changes nothing; existing entries are kept |
| FrameBufferCache.EnsureIsIdempotent | src/compositor.cpp:419-422 | after a successful call, a second call on the same buffer object returns the same framebuffer and changes nothing, whatever creation would answer |
| FrameBufferCache.BufferObjects.EnsureFramebuffer | src/compositor.cpp:413-437 | the returned framebuffer and the new side table are those of `Ensure` on the old table |
| Output.BeginPageFlip | src/compositor.cpp:301-316 | returns the kernel's answer; only a successful request marks the flip pending, and a failure leaves the flag as it was |
| Output.MarkFlipNoLongerPending | src/compositor.cpp:319-328 | the flag the event's user data points to is cleared |
| Output.LockAndEnsure | src/compositor.cpp:922-925 | a failed lock yields no framebuffer and leaves the cache alone; otherwise the result is `Ensure` on the locked buffer object |
| Output.SetModeStep | src/compositor.cpp:912-932 | success exactly when the lock, the framebuffer and the mode set all succeed; the locked buffer becomes current only on success; next and the flag are unchanged |
| Output.BeginSwapStep | src/compositor.cpp:934-949 | success exactly when the lock, the framebuffer and the flip request all succeed; the locked buffer becomes next and the flip becomes pending only on success; current never changes |
| Output.FinishSwapStep | src/compositor.cpp:962-966 | next becomes current and next keeps the same buffer; the flag and the cache are unchanged |
| Output.PresentCycle | src/compositor.cpp:934-966 | after a successful begin the flip is pending; once it is cleared, finishing makes the newly locked buffer current, with its framebuffer cached |
| Output.RepresentReusesFramebuffer | src/compositor.cpp:940-945 | re-presenting a buffer object that already has a framebuffer ignores the creation oracle and leaves the cache alone |
| Output.FailedAttemptKeepsBuffers | src/compositor.cpp:922-931 | a failed set_mode or begin_swap_buffers changes neither buffer slot nor the flag |
| Output.PendingFlag.constructor | src/compositor.cpp:881 | a new output's page-flip flag starts cleared |
| Output.Display.Create | src/compositor.cpp:886-901 | the output records its creating thread; it has a surface exactly when the surface and the child context are both created; it is usable exactly on the creating thread and only when both were created; a failed output has CRTC 0; both slots are empty and no flip is pending |
| Output.Display.UsableOnOneThreadOnly | src/compositor.cpp:903-908 | `operator bool` holds for at most one thread: no two different threads can both use the same output |
| Output.Display.CrtcId | src/compositor.cpp:910 | returns the output's CRTC, and may be called only where the output is usable |
| Output.Display.SetMode | src/compositor.cpp:912-932 | the result and the new output state are those of `SetModeStep` |
| Output.Display.BeginSwapBuffers | src/compositor.cpp:934-949 | the result and the new output state are those of `BeginSwapStep`; it requires a current front buffer, and a pending flip is not required to be absent |
| Output.Display.BufferSwapIsPending | src/compositor.cpp:951-954 | returns the flip flag |
| Output.Display.HandleEvent | src/compositor.cpp:956-960 | returns true exactly when reading the event queue fails; the flag is cleared exactly when the read delivers this output's completion event |
| Output.Display.FinishSwapBuffers | src/compositor.cpp:962-966 | the new output state is that of `FinishSwapStep` |
| FrontBufferHandle.Lock | src/compositor.cpp:400-407 | the handle holds a lock exactly when the allocator yields a buffer, and then holds that buffer and the surface it was locked from; a failed lock yields the empty handle with both pointers null |
| FrontBufferHandle.FailedLockReleasesNullPair | src/compositor.cpp:377-384 | when the lock fails, the empty handle's destructor still calls the release, with two null pointers, and the slot is untouched |
| FrontBufferHandle.Destroy | src/compositor.cpp:382-384 | the destructor releases the handle's surface and buffer, whatever they are |
| FrontBufferHandle.Commit | src/compositor.cpp:380-384 | after `slot = std::move(front)` the slot holds front's lock, and the scope's one release gives back that same lock |
| FrontBufferHandle.Discard | src/compositor.cpp:923-925 | returning before the commit releases the locked buffer and leaves the slot alone |
| FrontBufferHandle.Rotate | src/compositor.cpp:965 | the defaulted move copies next into current, leaves next as it was, and releases nothing |
| FrontBufferHandle.CommitAll | src/compositor.cpp:927 | repeated commits into one slot release one lock per commit; with no commit the slot is unchanged, and otherwise it ends holding a lock from the surface |
| FrontBufferHandle.CommitReleasesHeldLock | src/compositor.cpp:927 | after a successful commit the slot holds the new lock, which the scope has already released; the slot's previous lock is not released |
| FrontBufferHandle.RotateKeepsNextTruthy | src/compositor.cpp:386-388 | after `finish_swap_buffers` both slots hold the same lock, next still reads as holding one, and the old current lock is not released |
| FrontBufferHandle.CommitAllReleasesEveryCommittedLock | src/compositor.cpp:947 | over any sequence of commits into one slot, the releases are exactly the committed locks in order; the slot ends holding the last one, which is already released |
| Devices.ReconcileOne | src/compositor.cpp:1045-1076 | an unresolved connector is skipped; a tracked connector that is now disconnected is dropped and its CRTC goes into the pool; an untracked connected connector is added exactly when a mode, a CRTC and the output are all obtained; every other case changes nothing; the pool never shrinks |
| Devices.ProbedIds | src/compositor.cpp:1045-1047 | every connector that the pass reads has its id in the set |
| Devices.ReconcileFrom | src/compositor.cpp:1045-1076 | the loop only ever adds CRTCs to the pool; a tracked connector that none of the remaining probes reads keeps its CRTC; only a connector that is read can become tracked |
| Devices.Reconcile | src/compositor.cpp:1039-1077 | a failed resource read changes nothing (the early return at 1042-1043); otherwise the pool only grows, and a tracked connector the snapshot does not list keeps its output |
| Devices.ReconcileMany | src/compositor.cpp:1039-1077 | with no passes the state is unchanged; over any number of passes the pool only grows |
| Devices.NewCrtcsComeFromOutsidePool | src/compositor.cpp:1063-1074 | every connector a pass leaves tracked either kept its CRTC or got one that belongs to the snapshot and was outside the pool when the pass began |
| Devices.FullPoolCreatesNoOutput | src/compositor.cpp:1025-1026 | when the pool holds every CRTC of the snapshot, a pass tracks no new connector |
| Devices.SeededManagerIgnoresNewConnector | src/compositor.cpp:1039-1077 | a manager seeded with a one-CRTC snapshot ignores a connected connector with a preferred 1024x768 mode and an encoder that allows that CRTC |
| Devices.PooledCrtcIsNeverHandedOut | src/compositor.cpp:1055-1074 | over any number of passes, a CRTC that was in the pool at the start is held only by a connector that already held it |
| Devices.SeededManagerNeverCreatesOutputs | src/compositor.cpp:1009-1077 | a fresh manager whose pool covers every CRTC the snapshots list tracks no connector after any number of passes |
| Devices.DeviceManager.Create | src/compositor.cpp:1009-1035 | there is no manager exactly when one of the device, resource, allocator, display or context steps fails; otherwise the map is empty and the pool is exactly the snapshot's CRTCs |
| Devices.DeviceManager.FindCrtcForConnector | src/compositor.cpp:980-994 | the nested loops with early return give the result of `CrtcForEncoders` on the current pool |
| Devices.DeviceManager.ReconcileConnector | src/compositor.cpp:1046-1075 | one loop iteration transforms the abstract state as `ReconcileOne` does; tracked outputs all have a surface and belong to the caller's thread; an output that stays tracked is the same object; an output is dropped only when this probe reads its connector as disconnected; a newly tracked output is a fresh object in the state `create` leaves it in (empty slots, no flip pending, no framebuffers), so it is not mode-set |
| Devices.DeviceManager.UpdateConnections | src/compositor.cpp:1039-1077 | a failed snapshot changes nothing; otherwise the abstract state becomes the reconciliation of every probe in order; tracked outputs all have a surface and the caller's thread; a tracked output whose connector no probe reads as disconnected stays, as the same object (`emplace` never overwrites); every other entry is a fresh output in the state `create` leaves it in, never mode-set |

## Left out

- The DRM, GBM, EGL and GL calls themselves are oracles (booleans, ids and snapshots passed in), along with error printing, `perror` and `std::cerr`.
- The clear colour and the `swap_buffers` call in `set_mode` and `begin_swap_buffers`, which produce no state the model keeps.
- The width, height, connector id and mode that `Display::create` and `set_mode` pass on to the kernel are not carried, since they are only forwarded to native calls.
- Destructors of `Display`, `DeviceManager` and the wrapper classes (resource release on scope exit) are left out. The only destructor modelled is that of the front-buffer lock handle, in `FrontBufferHandle`.
- `Output.Display`: its slots carry only the buffer object. The release behaviour of the handle is modelled separately in `FrontBufferHandle`, not inside the class.
- `Output.Display.HandleEvent`: completion events for other outputs (which clear those outputs' flags) are not modelled, and nor is the wait for the event queue to become readable.
- `Output.Display.HandleEvent`: `ownEvent` stands for "the read delivered this output's completion event and the handler ran". The event context built at lines 329-334 is a local `drmEventContext`, and only `version` and `page_flip_handler` are set on it. libdrm's `drmHandleEvent` for version 3 prefers `page_flip_handler2` when that field is set, and here that field is uninitialised. So the code itself does not guarantee that a delivered completion reaches `mark_flip_no_longer_pending`. The model does not capture that hazard.
- `Output.Display.Create`: `contextOk` stands for what the `!context` test at line 898 reads. The move constructor of `egl::Context` (lines 586-592) does not copy `mConfig`, and `DrawableContext::create` returns by moving (line 785). So that test, the `!master` test at line 1023 and the assertion in `swap_buffers` (line 791) read an uninitialised pointer through `operator bool` (lines 604-607). The model does not capture that hazard.
- `BestMode.FindBestMode`: requires every area to fit in an `int`. This is stronger than the loop needs, but an overflowing product is undefined behaviour in the source.
- A snapshot with more than 32 CRTCs is excluded, because `1 << index` is undefined from 32 on.
- Thread affinity is a parameter (`caller`). The thread ids come from the caller, not from the runtime.
- `DeviceManager` construction (lines 996-1006) appears only through `Create`. `operator bool` of the manager is always true once it is created, and the re-check at line 1032 is folded into the success condition.
- The logger, the Wayland protocol server, the thread helper and `main` are not part of this model.
