# Buffer pool and pool router of the Android EGL renderer backend

This project models the core of `src/renderer-backend-egl.cpp`, the renderer side of a
WPE backend that hands GPU buffers to a host process.

- **`EGLTarget`** owns a pool of four buffer slots. Each slot has a stable `bufferID`, a
  `locked` flag (the host is showing it) and a lazily allocated hardware-buffer handle.
  The target also has a nullable `current` slot and the pool ID the host assigned.
  - `frameWillRender` picks the first unlocked slot. It aborts when there is none.
  - When the picked slot has no handle, it allocates one and announces it to the host:
    a BufferAllocation message, followed by the handle itself when the transfer succeeds.
  - `frameRendered` locks the slot, commits it, and clears `current`.
  - `releaseBuffer` unlocks a slot when the host is done with it.
  - `resize` and `deinitialize` purge the pool.
  - `initialize` obtains the pool ID and registers the target.
  - The destructor unregisters the pool.
- **`RendererBackend`** keeps the `poolID -> EGLTarget` map. It routes the host's
  FrameComplete and ReleaseBuffer notifications through that map.

Files:

- `wrappers.dfy`: `Option`, used for nullable pointers.
- `messages.dfy`: the IPC message kinds as a datatype. A `Delivery` is a received block:
  its byte length plus the message it decodes to.
- `buffer_pool.dfy`: the `Buffer` slot value and the specification functions on a
  sequence of slots. These are first-free selection (`FirstFree`), lock, release by ID
  (`IndexOf`, `Release`, `ReleaseAll`) and purge (`Purged`, `Handles`). The file holds
  the lemmas about them, and `DestroyBufferPool` on the slot array.
- `renderer_backend_egl.dfy`: the classes `EGLTarget` and `RendererBackend`, the
  handle-transfer retry loop, and the client scenarios `FourFramesThenAbort`, `ReleaseThenReuse`,
  `ReleaseAfterDestroy` and `ReleaseAfterUnregister` with their helpers `RenderFourFrames`
  and `HostReleases`.

How side effects are modelled:

- Every message the target sends, and every handle it transfers, is appended to the
  target's ghost `outbox`. Each entry is tagged with the socket it goes out on: the
  backend's IPC client or the target's own `ipcClient` (the code uses both).
- Every handle given to `AHardwareBuffer_release` is appended to the ghost `released`.
- Results of foreign calls are parameters:
  - what `AHardwareBuffer_allocate` returned and wrote (`AllocOutcome`);
  - the EGL image and renderbuffer names;
  - the framebuffer name;
  - the successive results of the handle-transfer call;
  - the reply read by the blocking request in `initialize`.
- `std::abort` and `g_error` become a returned `aborted` flag or a `Fatal` result.

Behaviour of the code worth noting, which the model follows:

- `frameRendered` sends BufferCommit only when the slot has a handle. A slot whose
  allocator left the handle null is locked without a commit.
- A slot whose allocation reports failure but still writes a handle keeps that handle
  and is never announced: no BufferAllocation and no handle transfer is sent, yet
  `frameRendered` commits it, so the host gets a commit for a buffer it never received
  (`FailedAllocationStaysUnannounced`).
- The final result of the handle transfer is discarded. A transfer that fails with
  anything other than -EAGAIN leaves a BufferAllocation with no handle after it. The slot
  keeps its handle and GPU objects, so `frameRendered` commits it and no later frame
  announces it again (`AnnouncementIsAdjacent`).
- `resize` and `deinitialize` do not clear `current`.
- `frameWillRender` does not clear `current` before its scan. When every slot is locked
  and `current` is already set, it keeps that stale slot and does not abort.
- The router is filled by a direct call from `initialize` when the
  PoolConstructionReply arrives. It is not filled by handling a RegisterPool message.
- The destroy entry point deletes the target but never erases its router entry (see
  "## Findings"). `Destroy` marks the target `destroyed`, a ghost flag standing for
  freed memory.

## Model

| member | source | states |
|---|---|---|
| `BufferPool.InitialPoolIsEmpty` | src/renderer-backend-egl.cpp:165-172 | a constructed pool has slot i with bufferID i, nothing locked, no handle, and its first frame takes slot 0 |
| `BufferPool.FirstFree` | src/renderer-backend-egl.cpp:273-279 | the scan's choice is an unlocked slot with every lower slot locked; there is no choice exactly when all slots are locked |
| `BufferPool.LockOnlyThatSlot` | src/renderer-backend-egl.cpp:367 | locking sets that slot's flag and leaves every other slot, and every ID and handle, unchanged |
| `BufferPool.IndexOf` | src/renderer-backend-egl.cpp:392-397 | the release scan stops at the first slot carrying the ID, and finds none exactly when no slot carries it |
| `BufferPool.ReleaseUnlocksExactly` | src/renderer-backend-egl.cpp:392-397 | in a pool whose IDs are its indices, releasing bufferID k unlocks slot k only; an unknown ID changes nothing |
| `BufferPool.IndexOfSameIds` | src/renderer-backend-egl.cpp:392-397 | which slot a release reaches depends on the slots' IDs only, not on their locks or handles |
| `BufferPool.ReleaseCommutes` | src/renderer-backend-egl.cpp:380-398 | two releases for the same pool give the same slots in either delivery order |
| `BufferPool.ReleaseAllUnlocks` | src/renderer-backend-egl.cpp:380-398 | a sequence of releases unlocks exactly the slots it names and leaves the others as they were |
| `BufferPool.ReleaseOrderIrrelevant` | src/renderer-backend-egl.cpp:380-398 | the result of a batch of releases depends only on the set of released IDs, not on arrival order |
| `BufferPool.PurgeResets` | src/renderer-backend-egl.cpp:99-118 | after a purge every slot keeps its ID, is unlocked, has no handle and no GPU objects, and the next frame takes slot 0 |
| `BufferPool.PurgedHoldsNoHandle` | src/renderer-backend-egl.cpp:112-116 | a purged pool holds no handle, so a second purge releases nothing |
| `BufferPool.HandlesAreHeld` | src/renderer-backend-egl.cpp:112-113 | a purge releases exactly the handles the slots hold: each released handle was held by a slot, every held handle is released, and no more handles are released than there are slots |
| `BufferPool.DestroyBufferPool` | src/renderer-backend-egl.cpp:99-118 | the array ends as the purged pool, and the released handles are those the slots held, in slot order |
| `RendererBackendEgl.RetryIndex` | src/renderer-backend-egl.cpp:332-336 | the attempt that ends the transfer loop is the first result other than -EAGAIN |
| `RendererBackendEgl.SendHandleWithRetry` | src/renderer-backend-egl.cpp:332-336 | the transfer is retried exactly while it reports -EAGAIN, and the first other result is returned |
| `RendererBackendEgl.AnnouncementIsAdjacent` | src/renderer-backend-egl.cpp:289-337 | a slot with a handle sends nothing; otherwise a successful allocation sends BufferAllocation(poolID, bufferID), then at once the transfer of the slot's new handle (or nothing after a failed transfer) |
| `RendererBackendEgl.FailedAllocationStaysUnannounced` | src/renderer-backend-egl.cpp:289-300 | an allocation that fails but writes a handle sends nothing, leaves the handle in the slot, and no later frame announces that slot |
| `RendererBackendEgl.EGLTarget.constructor` | src/renderer-backend-egl.cpp:165-172 | slot i gets bufferID i, with no current slot, pool ID 0 and nothing sent |
| `RendererBackendEgl.EGLTarget.Destroy` | src/renderer-backend-egl.cpp:174-184 | the destructor appends UnregisterPool(poolID) on the target's socket and the target becomes destroyed; the router is not touched |
| `RendererBackendEgl.EGLTarget.DestroyAndUnregister` | src/renderer-backend-egl.cpp:174-184 | the destructor with the missing erase: UnregisterPool(poolID) sent, the target destroyed, every router entry leading to it gone and all others kept, so a live router stays live; a target never initialized has no router and only sends UnregisterPool |
| `RendererBackendEgl.EGLTarget.Initialize` | src/renderer-backend-egl.cpp:186-225 | sends PoolConstruction. A whole PoolConstructionReply sets poolID, inserts the target into the router and sends RegisterPool(poolID). A reply of the wrong size or code leaves poolID and the router unchanged |
| `RendererBackendEgl.EGLTarget.Resize` | src/renderer-backend-egl.cpp:227-243 | same dimensions: nothing changes and nothing is sent. Otherwise: dimensions stored, every slot purged, the held handles released, exactly one PoolPurge(poolID) sent |
| `RendererBackendEgl.EGLTarget.FrameWillRender` | src/renderer-backend-egl.cpp:245-347 | sets up the renderer once. current becomes FirstFree of the slots, or stays as it was when all are locked. Aborts exactly when current ends null. Otherwise only the chosen slot changes, by Acquire, and the outbox grows by Announce |
| `RendererBackendEgl.EGLTarget.SelectCurrent` | src/renderer-backend-egl.cpp:273-279 | the scan sets current to the first unlocked slot and leaves a stale current when every slot is locked |
| `RendererBackendEgl.EGLTarget.PrepareCurrent` | src/renderer-backend-egl.cpp:287-338 | the current slot receives what the allocator wrote only if it had no handle, and GPU objects only on success; the announcement is as in AnnouncementIsAdjacent |
| `RendererBackendEgl.EGLTarget.FrameRendered` | src/renderer-backend-egl.cpp:349-369 | locks exactly the current slot, clears current, and sends BufferCommit(poolID, bufferID) exactly when that slot has a handle |
| `RendererBackendEgl.EGLTarget.Deinitialize` | src/renderer-backend-egl.cpp:371-378 | the same purge as resize, plus the framebuffer name reset to 0; nothing is sent |
| `RendererBackendEgl.EGLTarget.ReleaseBuffer` | src/renderer-backend-egl.cpp:380-398 | with a different poolID no slot changes; otherwise the slots become Release(slots, bufferID) |
| `RendererBackendEgl.Insert` | src/renderer-backend-egl.cpp:128-130 | map insert adds the key and never overwrites an existing entry or removes one |
| `RendererBackendEgl.RendererBackend.constructor` | src/renderer-backend-egl.cpp:120-122 | a new backend routes no pool |
| `RendererBackendEgl.RendererBackend.RegisterEGLTarget` | src/renderer-backend-egl.cpp:128-130 | the map becomes Insert(map, poolId, target): existing entries are kept |
| `RendererBackendEgl.RendererBackend.UnregisterEGLTarget` | src/renderer-backend-egl.cpp:128-130 | the counterpart of registerEGLTarget that the code lacks: exactly the entries leading to the target are removed |
| `RendererBackendEgl.RendererBackend.HandleMessage` | src/renderer-backend-egl.cpp:132-163 | a delivery of the wrong length is dropped. FrameComplete and ReleaseBuffer with an unregistered poolID are fatal. FrameComplete is dispatched to the owning target's wpe target. ReleaseBuffer applies that target's releaseBuffer to its slots only. Other codes are ignored; the map never changes. When no entry leads to a destroyed target, no routed delivery reaches one |
| `RendererBackendEgl.RenderFourFrames` | src/renderer-backend-egl.cpp:245-369 | on an empty pool, four frames take slots 0 to 3, lock all four, and send allocation, handle and commit for each slot in turn |
| `RendererBackendEgl.FourFramesThenAbort` | src/renderer-backend-egl.cpp:273-283 | on a target initialized with pool 7 and no releases, four frames take slots 0, 1, 2, 3 and the fifth aborts |
| `RendererBackendEgl.HostReleases` | src/renderer-backend-egl.cpp:148-157 | routed releases of buffers 2 and 0 of pool 7 unlock those slots; a release for pool 8 is fatal; a short one is dropped |
| `RendererBackendEgl.ReleaseThenReuse` | src/renderer-backend-egl.cpp:273-279 | after the host releases buffers 2 and 0 of a full pool, the next frame reuses slot 0 and does not abort |
| `RendererBackendEgl.ReleaseAfterDestroy` | src/renderer-backend-egl.cpp:441-446 | a release for pool 7 arriving after the pool's target was destroyed is still routed to that target |
| `RendererBackendEgl.ReleaseAfterUnregister` | src/renderer-backend-egl.cpp:441-446 | with the erase added to destruction, the same release no longer reaches the destroyed target |

## Left out

- `src/ipc.cpp` is not part of this model. It covers socket creation, GLib sources,
  `sendmsg`/`recvmsg` and descriptor passing. Sends are outbox appends. Received
  blocks are `Delivery` values, whose length is checked where `RendererBackend::handleMessage`
  and the `initialize` continuation check it.
- The byte layout of `IPC::Message` and its `construct`/`cast`/`from` helpers (ipc.h)
  are not modelled.
  - `Messages.MessageSize` stands for `IPC::Message::size`. Its value is not in the
    modelled files. No property depends on it, only the comparison with it.
- The GL and EGL calls are not modelled: entry-point lookup, framebuffer and renderbuffer
  creation, binding and storage, `glFlush`, and the deletion of renderbuffers, images and
  framebuffers. The names they produce are opaque numbers, stored on allocation and
  zeroed on purge. Which names get deleted is not tracked.
- Logging (`ALOGV`) is not modelled. It does not affect state.
- The vtable lambdas and the offscreen-target stubs are not modelled. They are dispatch
  and no-ops.
- `EGLTarget::handleMessage` is not modelled. Its body is empty.
- The embedder callback for FrameComplete is not modelled. The router returns which wpe
  target it would be dispatched to.
- The `RendererBackend` destructor, the IPC client setup in both constructors and
  `ipcClient.deinitialize()` at the end of the `EGLTarget` destructor are not modelled.
  They are socket I/O.
- Process termination is not modelled. After `std::abort` or `g_error`, the model
  returns the abort flag or `Fatal` with the state the code had reached.
- uint32 IDs and dimensions are `nat`. The code does no arithmetic on them, so
  wrap-around never matters.
- `RendererBackendEgl.EGLTarget.FrameWillRender` requires that the handle-transfer
  results eventually differ from -EAGAIN, even on calls that allocate nothing. The code
  would spin forever otherwise.
- `RendererBackendEgl.EGLTarget.PrepareCurrent` has the same requirement on the transfer
  results.
- `RendererBackendEgl.EGLTarget.FrameWillRender` and `RendererBackendEgl.EGLTarget.FrameRendered`
  send on the backend's socket without modelling `m_backend` being null. That happens when a frame starts before `initialize`.
- `RendererBackendEgl.EGLTarget.Initialize`, `RendererBackendEgl.RendererBackend.RegisterEGLTarget`
  and `RendererBackendEgl.RendererBackend.HandleMessage` (through `Valid`) require that no two
  registered targets share a slot array. In C++ each target embeds its own `std::array`, so
  this always holds. The model uses a separate array object and needs the fact stated.
- `RendererBackendEgl.EGLTarget.Destroy` does not free memory. A destroyed target keeps its
  fields and slots, so the model can show a delivery reaching it but not what a read of
  freed memory would yield.

## Findings

| source | as written | input that shows it | evidently intended | confidence | as-written member | corrected member |
|---|---|---|---|---|---|---|
| src/renderer-backend-egl.cpp:441-446 | the destroy entry point deletes the target, but its `m_targetMap` entry (inserted at line 129) is never erased, so later FrameComplete and ReleaseBuffer for that pool (lines 141-156) use the deleted object | initialize with PoolConstructionReply(7), destroy, then a ReleaseBuffer{poolID 7, bufferID 0} delivered to the backend | destruction erases the router entries leading to the target, so no delivery reaches a destroyed target | medium, not executed | `RendererBackendEgl.ReleaseAfterDestroy` | `RendererBackendEgl.EGLTarget.DestroyAndUnregister` |
