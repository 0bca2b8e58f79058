/**
 * The EGL renderer backend: EGLTarget, which owns one pool of four buffers and
 * drives the pool protocol with the host, and RendererBackend, which routes
 * host notifications to the target that owns the named pool.
 *
 * Messages and handle transfers the code sends are appended to a ghost outbox,
 * tagged with the socket they go out on. Results of foreign calls (hardware
 * buffer allocation, GL object names, the handle-transfer call) are parameters.
 */
module RendererBackendEgl {
  import opened Wrappers
  import opened Messages
  import opened BufferPool

  /** errno EAGAIN on Linux. */
  const EAGAIN: int := 11

  /** The two IPC clients the code sends on: the backend's (m_backend->ipc())
      and the target's own ipcClient. */
  datatype Channel = BackendChannel | TargetChannel

  /** What goes out on a socket: a message, or an out-of-band handle. */
  datatype Packet =
    | Message(channel: Channel, msg: Msg)
    | HandleTransfer(channel: Channel, handle: Handle)

  /** The result of AHardwareBuffer_allocate: its return code and what it wrote
      into the slot's handle. */
  datatype AllocOutcome = AllocOutcome(status: int, handle: Option<Handle>)

  predicate Allocated(a: AllocOutcome)
  {
    a.status == 0 && a.handle.Some?
  }

  /** The renderer struct, without its EGL entry points. */
  datatype RendererState = RendererState(initialized: bool, width: nat, height: nat, framebuffer: nat)

  /** What RendererBackend::handleMessage did with a delivery. */
  datatype Handling =
    | Dropped                                  // wrong length, silently ignored
    | Ignored                                  // a code the backend does not handle
    | FrameCompleteDispatched(wpeTarget: nat)  // passed to the embedder for this target
    | BufferReleased(poolID: nat, bufferID: nat)
    | Fatal(poolID: nat)                       // g_error: no pool with that ID

  // ---------------------------------------------------------------------
  // Handle transfer with retry
  // ---------------------------------------------------------------------

  /** Successive results of AHardwareBuffer_sendHandleToUnixSocket; the call
      stops being retried at the first result other than -EAGAIN. */
  predicate TransferEnds(attempts: seq<int>)
  {
    exists j | 0 <= j < |attempts| :: attempts[j] != -EAGAIN
  }

  /** The index of the attempt that ends the retry loop. */
  function RetryIndex(attempts: seq<int>): (k: nat)
    requires TransferEnds(attempts)
    ensures k < |attempts| && attempts[k] != -EAGAIN
    ensures forall j | 0 <= j < k :: attempts[j] == -EAGAIN
  {
    if attempts[0] != -EAGAIN then 0
    else
      assert TransferEnds(attempts[1..]) by {
        var j :| 0 <= j < |attempts| && attempts[j] != -EAGAIN;
        assert attempts[1..][j - 1] == attempts[j];
      }
      1 + RetryIndex(attempts[1..])
  }

  /** The retry loop around the handle transfer: it calls again only while the
      call reports -EAGAIN, and returns the final result and the number of calls. */
  method SendHandleWithRetry(attempts: seq<int>) returns (ret: int, calls: nat)
    requires TransferEnds(attempts)
    ensures 0 < calls <= |attempts| && ret == attempts[calls - 1] && ret != -EAGAIN
    ensures forall j | 0 <= j < calls - 1 :: attempts[j] == -EAGAIN
    ensures calls == RetryIndex(attempts) + 1
  {
    var k := 0;
    while true
      invariant 0 <= k < |attempts|
      invariant forall j | 0 <= j < k :: attempts[j] == -EAGAIN
      decreases |attempts| - k
    {
      ret := attempts[k];
      calls := k + 1;
      if ret == 0 || ret != -EAGAIN {
        break;
      }
      k := k + 1;
    }
  }

  // ---------------------------------------------------------------------
  // What frameWillRender does to the chosen slot and to the outbox
  // ---------------------------------------------------------------------

  /** The chosen slot after frameWillRender: untouched if it already had a
      handle; otherwise it receives whatever the allocator wrote, and the GPU
      objects only when allocation succeeded. */
  function Acquire(b: Buffer, alloc: AllocOutcome, gpu: GpuObjects): Buffer
  {
    if b.handle.Some? then b
    else if Allocated(alloc) then b.(handle := alloc.handle, gpu := gpu)
    else b.(handle := alloc.handle)
  }

  /** What frameWillRender sends for the chosen slot: nothing unless the slot
      had no handle and allocation succeeded; then BufferAllocation, followed by
      the handle itself when the transfer succeeded. */
  function Announce(poolID: nat, b: Buffer, alloc: AllocOutcome, attempts: seq<int>): seq<Packet>
    requires TransferEnds(attempts)
  {
    if b.handle.Some? || !Allocated(alloc) then []
    else [Message(BackendChannel, BufferAllocation(poolID, b.bufferID))]
         + (if attempts[RetryIndex(attempts)] == 0 then [HandleTransfer(BackendChannel, alloc.handle.value)] else [])
  }

  /** When frameWillRender announces anything, it is the chosen slot's
      BufferAllocation immediately followed by the transfer of that same
      freshly allocated handle, or the BufferAllocation alone if the transfer
      failed; a slot that already had a handle is never announced again. */
  lemma AnnouncementIsAdjacent(poolID: nat, b: Buffer, alloc: AllocOutcome, attempts: seq<int>)
    requires TransferEnds(attempts)
    ensures var out := Announce(poolID, b, alloc, attempts);
            (b.handle.Some? ==> out == [])
            && (out != [] <==> b.handle.None? && Allocated(alloc))
            && (out != [] ==> out[0] == Message(BackendChannel, BufferAllocation(poolID, b.bufferID)))
            && (|out| == 2 <==> out != [] && attempts[RetryIndex(attempts)] == 0)
            && (|out| == 2 ==> out[1] == HandleTransfer(BackendChannel, alloc.handle.value)
                               && Acquire(b, alloc, NoGpuObjects).handle == Some(out[1].handle))
            && |out| <= 2
  {
  }

  /** A slot without a handle whose allocation reports failure but still
      writes a handle: nothing is announced, yet the slot now holds that
      handle, so frameRendered commits a buffer the host never received, and
      no later frame announces it either. */
  lemma FailedAllocationStaysUnannounced(poolID: nat, b: Buffer, alloc: AllocOutcome, gpu: GpuObjects, attempts: seq<int>)
    requires TransferEnds(attempts)
    requires b.handle.None? && alloc.status != 0 && alloc.handle.Some?
    ensures Announce(poolID, b, alloc, attempts) == []
    ensures Acquire(b, alloc, gpu).handle == alloc.handle && Acquire(b, alloc, gpu).gpu == b.gpu
    ensures forall alloc': AllocOutcome, attempts': seq<int> | TransferEnds(attempts') ::
              Announce(poolID, Acquire(b, alloc, gpu), alloc', attempts') == []
  {
  }

  // ---------------------------------------------------------------------
  // EGLTarget
  // ---------------------------------------------------------------------

  class EGLTarget {
    /** The wpe_renderer_backend_egl_target this object serves (opaque). */
    const wpeTarget: nat
    var backend: RendererBackend?
    var renderer: RendererState

    /** buffers.current, as an index into the pool. */
    var current: Option<nat>
    var poolID: nat
    const pool: array<Buffer>

    /** Everything sent so far, in order. */
    ghost var outbox: seq<Packet>
    /** Set once the destroy entry point has deleted this target. */
    ghost var destroyed: bool
    /** Every handle passed to AHardwareBuffer_release so far, in order. */
    ghost var released: seq<Handle>

    ghost predicate Valid()
      reads this, pool
    {
      && pool.Length == PoolSize
      && IdsAreIndices(pool[..])
      && (forall i | 0 <= i < pool.Length :: Owned(pool[i]))
      && (current.Some? ==> current.value < PoolSize)
    }

    /** EGLTarget::EGLTarget: stamps slot i with bufferID i. */
    constructor (wpeTarget: nat)
      ensures Valid() && fresh(pool)
      ensures pool[..] == InitialPool()
      ensures this.wpeTarget == wpeTarget && backend == null
      ensures renderer == RendererState(false, 0, 0, 0)
      ensures current == None && poolID == 0
      ensures outbox == [] && released == [] && !destroyed
    {
      this.wpeTarget := wpeTarget;
      backend := null;
      renderer := RendererState(false, 0, 0, 0);
      current := None;
      poolID := 0;
      outbox := [];
      released := [];
      destroyed := false;
      var slots := new Buffer[PoolSize](_ => DefaultBuffer);
      for i := 0 to PoolSize
        invariant forall j | 0 <= j < i :: slots[j] == DefaultBuffer.(bufferID := j)
        invariant forall j | i <= j < PoolSize :: slots[j] == DefaultBuffer
      {
        slots[i] := slots[i].(bufferID := i);
      }
      pool := slots;
    }

    /** The destroy entry point: `delete target`, whose destructor announces
        that the pool is going away. The router's entries for this target are
        left in place, still leading to the deleted object. */
    method Destroy()
      modifies this`outbox, this`destroyed
      ensures destroyed
      ensures outbox == old(outbox) + [Message(TargetChannel, UnregisterPool(poolID))]
    {
      outbox := outbox + [Message(TargetChannel, UnregisterPool(poolID))];
      destroyed := true;
    }

    /** Destroy as evidently intended: the router's entries for this target are
        erased before it is deleted, so no later notification reaches it. A
        target never initialized has no router to erase from. */
    method DestroyAndUnregister()
      requires backend != null ==> backend.Valid()
      modifies this`outbox, this`destroyed, backend
      ensures destroyed
      ensures outbox == old(outbox) + [Message(TargetChannel, UnregisterPool(poolID))]
      ensures backend != null ==> backend.Valid()
      ensures backend != null ==>
                forall id :: id in backend.targets <==> id in old(backend.targets) && old(backend.targets)[id] != this
      ensures backend != null ==>
                forall id | id in backend.targets :: backend.targets[id] == old(backend.targets)[id]
      ensures backend != null ==> (old(backend.Live()) ==> backend.Live())
    {
      if backend != null {
        backend.UnregisterEGLTarget(this);
      }
      Destroy();
    }

    /** EGLTarget::initialize: asks the host for a pool over the backend's
        socket and blocks for the reply, which is `reply`. A whole
        PoolConstructionReply sets the pool ID, registers this target under it
        and sends RegisterPool; any other reply changes nothing further. */
    method Initialize(rendererBackend: RendererBackend, width: nat, height: nat, reply: Delivery)
      requires Valid() && rendererBackend.Valid() && rendererBackend.CanRegister(this)
      modifies this`backend, this`renderer, this`poolID, this`outbox, rendererBackend
      ensures Valid() && rendererBackend.Valid()
      ensures backend == rendererBackend
      ensures renderer == old(renderer).(width := width, height := height)
      ensures var accepted := WellSized(reply) && reply.msg.PoolConstructionReply?;
              && poolID == (if accepted then reply.msg.poolID else old(poolID))
              && rendererBackend.targets == (if accepted then Insert(old(rendererBackend.targets), reply.msg.poolID, this)
                                             else old(rendererBackend.targets))
              && outbox == old(outbox) + [Message(BackendChannel, PoolConstruction)]
                           + (if accepted then [Message(TargetChannel, RegisterPool(reply.msg.poolID))] else [])
    {
      backend := rendererBackend;
      renderer := renderer.(width := width, height := height);
      outbox := outbox + [Message(BackendChannel, PoolConstruction)];
      if reply.size != MessageSize {
        return;
      }
      match reply.msg
      case PoolConstructionReply(id) =>
        poolID := id;
        rendererBackend.RegisterEGLTarget(poolID, this);
        outbox := outbox + [Message(TargetChannel, RegisterPool(id))];
      case _ =>
    }

    /** EGLTarget::resize: with new dimensions, purges every slot and sends
        PoolPurge; with the same dimensions, does nothing. */
    method Resize(width: nat, height: nat)
      requires Valid()
      modifies this`renderer, this`outbox, this`released, pool
      ensures Valid()
      ensures old(renderer.width) == width && old(renderer.height) == height ==>
                renderer == old(renderer) && pool[..] == old(pool[..])
                && outbox == old(outbox) && released == old(released)
      ensures !(old(renderer.width) == width && old(renderer.height) == height) ==>
                renderer == old(renderer).(width := width, height := height)
                && pool[..] == Purged(old(pool[..]))
                && released == old(released) + Handles(old(pool[..]))
                && outbox == old(outbox) + [Message(TargetChannel, PoolPurge(poolID))]
    {
      if renderer.width == width && renderer.height == height {
        return;
      }
      renderer := renderer.(width := width, height := height);
      ghost var before := pool[..];
      var freed := DestroyBufferPool(pool);
      PurgeResets(before);
      released := released + freed;
      outbox := outbox + [Message(TargetChannel, PoolPurge(poolID))];
    }

    /** EGLTarget::frameWillRender: picks the first unlocked slot as current
        (keeping a stale current if every slot is locked), aborts when there is
        none, and lazily allocates and announces the slot's hardware buffer. */
    method FrameWillRender(alloc: AllocOutcome, gpu: GpuObjects, framebufferName: nat, attempts: seq<int>)
      returns (aborted: bool)
      requires Valid()
      requires TransferEnds(attempts)
      modifies this`renderer, this`current, this`outbox, pool
      ensures Valid()
      ensures renderer == old(renderer).(initialized := true,
                                         framebuffer := if old(renderer.initialized) then old(renderer.framebuffer)
                                                        else framebufferName)
      ensures current == (var pick := FirstFree(old(pool[..])); if pick.Some? then pick else old(current))
      ensures aborted <==> current.None?
      ensures aborted ==> pool[..] == old(pool[..]) && outbox == old(outbox)
      ensures !aborted ==>
                var c := current.value;
                && pool[..] == old(pool[..])[c := Acquire(old(pool[c]), alloc, gpu)]
                && outbox == old(outbox) + Announce(poolID, old(pool[c]), alloc, attempts)
    {
      if !renderer.initialized {
        renderer := renderer.(initialized := true, framebuffer := framebufferName);
      }
      SelectCurrent();
      if current.None? {
        return true;
      }
      PrepareCurrent(alloc, gpu, attempts);
      return false;
    }

    /** The scan of frameWillRender: current becomes the first unlocked slot;
        when every slot is locked, current is left as it was. */
    method SelectCurrent()
      requires Valid()
      modifies this`current
      ensures Valid()
      ensures current == (var pick := FirstFree(pool[..]); if pick.Some? then pick else old(current))
    {
      for i := 0 to PoolSize
        invariant forall j | 0 <= j < i :: pool[j].locked
        invariant current == old(current)
      {
        if pool[i].locked {
          continue;
        }
        current := Some(i);
        break;
      }
    }

    /** The lazy allocation of frameWillRender: a current slot without a handle
        gets one, and a successful allocation is announced to the host as
        BufferAllocation followed by the handle. */
    method PrepareCurrent(alloc: AllocOutcome, gpu: GpuObjects, attempts: seq<int>)
      requires Valid() && current.Some?
      requires TransferEnds(attempts)
      modifies this`outbox, pool
      ensures Valid()
      ensures var c := current.value;
              && pool[..] == old(pool[..])[c := Acquire(old(pool[c]), alloc, gpu)]
              && outbox == old(outbox) + Announce(poolID, old(pool[c]), alloc, attempts)
    {
      var c := current.value;
      if pool[c].handle.Some? {
        return;
      }
      pool[c] := pool[c].(handle := alloc.handle);
      if alloc.status != 0 || alloc.handle.None? {
        return;
      }
      pool[c] := pool[c].(gpu := gpu);
      outbox := outbox + [Message(BackendChannel, BufferAllocation(poolID, pool[c].bufferID))];
      var ret, _ := SendHandleWithRetry(attempts);
      if ret == 0 {
        outbox := outbox + [HandleTransfer(BackendChannel, alloc.handle.value)];
      }
    }

    /** EGLTarget::frameRendered: locks the current slot, commits it if it has a
        handle, and clears current. Calling it with no current slot is a
        caller error. */
    method FrameRendered()
      requires Valid() && current.Some?
      modifies this`current, this`outbox, pool
      ensures Valid()
      ensures current == None
      ensures var c := old(current.value);
              && pool[..] == Lock(old(pool[..]), c)
              && outbox == old(outbox) + (if old(pool[c]).handle.Some?
                                          then [Message(BackendChannel, BufferCommit(poolID, c))] else [])
    {
      var c := current.value;
      if pool[c].handle.Some? {
        outbox := outbox + [Message(BackendChannel, BufferCommit(poolID, pool[c].bufferID))];
      }
      pool[c] := pool[c].(locked := true);
      current := None;
    }

    /** EGLTarget::deinitialize: purges every slot and forgets the framebuffer. */
    method Deinitialize()
      requires Valid()
      modifies this`renderer, this`released, pool
      ensures Valid()
      ensures pool[..] == Purged(old(pool[..]))
      ensures released == old(released) + Handles(old(pool[..]))
      ensures renderer == old(renderer).(framebuffer := 0)
    {
      ghost var before := pool[..];
      var freed := DestroyBufferPool(pool);
      PurgeResets(before);
      released := released + freed;
      renderer := renderer.(framebuffer := 0);
    }

    /** EGLTarget::releaseBuffer: for this pool's ID, unlocks the slot with the
        given buffer ID; a notification for another pool changes nothing. */
    method ReleaseBuffer(poolID: nat, bufferID: nat)
      requires Valid()
      modifies pool
      ensures Valid()
      ensures pool[..] == if poolID == this.poolID then Release(old(pool[..]), bufferID) else old(pool[..])
    {
      if this.poolID != poolID {
        return;
      }
      for i := 0 to PoolSize
        invariant forall j | 0 <= j < i :: pool[j].bufferID != bufferID
        invariant pool[..] == old(pool[..])
      {
        if pool[i].bufferID == bufferID {
          pool[i] := pool[i].(locked := false);
          break;
        }
      }
    }
  }

  // ---------------------------------------------------------------------
  // RendererBackend
  // ---------------------------------------------------------------------

  /** std::unordered_map::insert: adds the key only when it is absent. */
  function Insert(m: map<nat, EGLTarget>, key: nat, t: EGLTarget): (r: map<nat, EGLTarget>)
    ensures r.Keys == m.Keys + {key}
    ensures forall k | k in m :: r[k] == m[k]
    ensures key !in m ==> r[key] == t
  {
    if key in m then m else m[key := t]
  }

  class RendererBackend {
    /** m_targetMap: pool ID to the target that owns it. */
    var targets: map<nat, EGLTarget>

    /** Every registered target is valid, and distinct targets own distinct
        pools (each EGLTarget embeds its own array). */
    ghost predicate Valid()
      reads this, targets.Values, set t | t in targets.Values :: t.pool
    {
      && (forall id | id in targets :: targets[id].Valid())
      && (forall a, b | a in targets && b in targets && targets[a] != targets[b] ::
            targets[a].pool != targets[b].pool)
    }

    /** `t` shares its pool with no other registered target. */
    ghost predicate CanRegister(t: EGLTarget)
      reads this
    {
      forall id | id in targets && targets[id] != t :: targets[id].pool != t.pool
    }

    /** No registered pool ID leads to a destroyed target. */
    ghost predicate Live()
      reads this, targets.Values
    {
      forall id | id in targets :: !targets[id].destroyed
    }

    constructor ()
      ensures Valid() && Live() && targets == map[]
    {
      targets := map[];
    }

    /** RendererBackend::registerEGLTarget: never overwrites an existing entry. */
    method RegisterEGLTarget(poolId: nat, target: EGLTarget)
      requires Valid() && target.Valid() && CanRegister(target)
      modifies this
      ensures Valid()
      ensures targets == Insert(old(targets), poolId, target)
      ensures old(Live()) && !target.destroyed ==> Live()
    {
      targets := Insert(targets, poolId, target);
    }

    /** The erase the destructor leaves out: every entry leading to `target`
        goes, and every other entry stays. */
    method UnregisterEGLTarget(target: EGLTarget)
      requires Valid()
      modifies this
      ensures Valid()
      ensures forall id :: id in targets <==> id in old(targets) && old(targets)[id] != target
      ensures forall id | id in targets :: targets[id] == old(targets)[id]
      ensures target !in targets.Values
      ensures old(Live()) ==> Live()
    {
      targets := map id | id in targets && targets[id] != target :: targets[id];
    }

    /** The pool a delivery may change: that of the target a whole
        ReleaseBuffer for a registered pool ID is routed to. */
    ghost function Footprint(d: Delivery): set<object>
      reads this
    {
      if WellSized(d) && d.msg.ReleaseBuffer? && d.msg.poolID in targets
      then {targets[d.msg.poolID].pool} else {}
    }

    /** RendererBackend::handleMessage: drops a delivery of the wrong length,
        routes FrameComplete and ReleaseBuffer by pool ID (fatal when the ID is
        not registered), and ignores every other code. */
    method HandleMessage(d: Delivery) returns (r: Handling)
      requires Valid()
      modifies Footprint(d)
      ensures Valid()
      ensures !WellSized(d) ==> r == Dropped
      ensures WellSized(d) && d.msg.FrameComplete? ==>
                r == if d.msg.poolID in targets then FrameCompleteDispatched(targets[d.msg.poolID].wpeTarget)
                     else Fatal(d.msg.poolID)
      ensures WellSized(d) && d.msg.ReleaseBuffer? ==>
                r == if d.msg.poolID in targets then BufferReleased(d.msg.poolID, d.msg.bufferID)
                     else Fatal(d.msg.poolID)
      ensures WellSized(d) && !d.msg.FrameComplete? && !d.msg.ReleaseBuffer? ==> r == Ignored
      ensures r.BufferReleased? ==>
                var t := targets[r.poolID];
                t.pool[..] == if t.poolID == r.poolID then Release(old(t.pool[..]), r.bufferID)
                              else old(t.pool[..])
      ensures Live() == old(Live())
      ensures Live() && WellSized(d) && (r.BufferReleased? || r.FrameCompleteDispatched?) ==>
                d.msg.poolID in targets && !targets[d.msg.poolID].destroyed
    {
      if d.size != MessageSize {
        return Dropped;
      }
      match d.msg
      case FrameComplete(id) =>
        if id !in targets {
          return Fatal(id);
        }
        r := FrameCompleteDispatched(targets[id].wpeTarget);
      case ReleaseBuffer(id, bufferID) =>
        if id !in targets {
          return Fatal(id);
        }
        var t := targets[id];
        t.ReleaseBuffer(id, bufferID);
        r := BufferReleased(id, bufferID);
      case _ =>
        r := Ignored;
    }
  }

  // ---------------------------------------------------------------------
  // Scenarios
  // ---------------------------------------------------------------------

  /** What one frame on a never-used slot k sends when allocation and the
      handle transfer succeed: the allocation, the handle, then the commit. */
  ghost function FirstUseTraffic(poolID: nat, k: nat): seq<Packet>
  {
    [ Message(BackendChannel, BufferAllocation(poolID, k)),
      HandleTransfer(BackendChannel, Handle(k)),
      Message(BackendChannel, BufferCommit(poolID, k)) ]
  }

  ghost function FramesTraffic(poolID: nat, n: nat): seq<Packet>
  {
    if n == 0 then [] else FramesTraffic(poolID, n - 1) + FirstUseTraffic(poolID, n - 1)
  }

  /** Four frames on a pool with no lock and no handle, each allocation handing
      out Handle(k) for slot k: the frames take slots 0 to 3 in order, lock
      all four, and announce and commit each slot in turn. */
  method RenderFourFrames(t: EGLTarget) returns (picks: seq<nat>)
    requires t.Valid() && t.current.None?
    requires forall j | 0 <= j < PoolSize :: !t.pool[j].locked && t.pool[j].handle.None?
    modifies t`renderer, t`current, t`outbox, t.pool
    ensures t.Valid() && t.current.None?
    ensures picks == [0, 1, 2, 3]
    ensures forall j | 0 <= j < PoolSize :: t.pool[j].locked && t.pool[j].handle == Some(Handle(j))
    ensures t.outbox == old(t.outbox) + FramesTraffic(t.poolID, PoolSize)
  {
    var sent := [0];
    assert sent[0] != -EAGAIN;
    picks := [];
    var frame := 0;
    while frame < PoolSize
      invariant 0 <= frame <= PoolSize
      invariant t.Valid() && t.current.None?
      invariant picks == seq(frame, (j: nat) => j)
      invariant forall j | 0 <= j < PoolSize ::
                  (t.pool[j].locked <==> j < frame)
                  && t.pool[j].handle == (if j < frame then Some(Handle(j)) else None)
      invariant t.outbox == old(t.outbox) + FramesTraffic(t.poolID, frame)
    {
      var aborted := t.FrameWillRender(AllocOutcome(0, Some(Handle(frame))), NoGpuObjects, 1, sent);
      assert !t.pool[frame].locked;
      picks := picks + [t.current.value];
      t.FrameRendered();
      frame := frame + 1;
    }
  }

  /** With no release from the host, four frames take slots 0, 1, 2 and 3 in
      that order, and the fifth frame finds every slot locked and aborts. */
  method FourFramesThenAbort() returns (picks: seq<nat>, fifthAborted: bool)
    ensures picks == [0, 1, 2, 3]
    ensures fifthAborted
  {
    var backend := new RendererBackend();
    var t := new EGLTarget(0);
    InitialPoolIsEmpty();
    t.Initialize(backend, 640, 480, Delivery(MessageSize, PoolConstructionReply(7)));
    picks := RenderFourFrames(t);
    var sent := [0];
    assert sent[0] != -EAGAIN;
    fifthAborted := t.FrameWillRender(AllocOutcome(0, Some(Handle(4))), NoGpuObjects, 1, sent);
  }

  /** A router holding a single valid target is valid. */
  lemma SingleTargetValid(backend: RendererBackend, id: nat, t: EGLTarget)
    requires backend.targets == map[id := t] && t.Valid()
    ensures backend.Valid()
  {
  }

  /** The host's notifications in the scenario below, on a pool 7 whose four
      slots are locked: buffers 2 and 0 are released, a release naming pool 8
      is fatal, and one of the wrong length is dropped. */
  method HostReleases(backend: RendererBackend, t: EGLTarget) returns (handled: seq<Handling>)
    requires backend.Valid() && backend.targets == map[7 := t] && t.poolID == 7 && t.Valid()
    requires forall j | 0 <= j < PoolSize :: t.pool[j].locked
    modifies t.pool
    ensures t.Valid()
    ensures handled == [BufferReleased(7, 2), BufferReleased(7, 0), Fatal(8), Dropped]
    ensures forall j | 0 <= j < PoolSize :: t.pool[j].locked <==> j == 1 || j == 3
  {
    ghost var full := t.pool[..];
    var h1 := backend.HandleMessage(Delivery(MessageSize, ReleaseBuffer(7, 2)));
    ReleaseUnlocksExactly(full, 2);
    ghost var one := t.pool[..];
    var h2 := backend.HandleMessage(Delivery(MessageSize, ReleaseBuffer(7, 0)));
    ReleaseUnlocksExactly(one, 0);
    var h3 := backend.HandleMessage(Delivery(MessageSize, ReleaseBuffer(8, 1)));
    var h4 := backend.HandleMessage(Delivery(MessageSize - 1, ReleaseBuffer(7, 1)));
    handled := [h1, h2, h3, h4];
  }

  /** A target that got pool 7 from the host fills its pool; the host then
      releases buffers 2 and 0 through the router, and the next frame reuses
      slot 0, the lowest released one. */
  method ReleaseThenReuse() returns (handled: seq<Handling>, pick: Option<nat>, aborted: bool)
    ensures handled == [BufferReleased(7, 2), BufferReleased(7, 0), Fatal(8), Dropped]
    ensures !aborted && pick == Some(0)
  {
    var backend := new RendererBackend();
    var t := new EGLTarget(1);
    InitialPoolIsEmpty();
    t.Initialize(backend, 640, 480, Delivery(MessageSize, PoolConstructionReply(7)));
    assert backend.targets == map[7 := t];
    var picks := RenderFourFrames(t);
    SingleTargetValid(backend, 7, t);
    handled := HostReleases(backend, t);
    var sent := [0];
    assert sent[0] != -EAGAIN;
    aborted := t.FrameWillRender(AllocOutcome(0, Some(Handle(9))), NoGpuObjects, 1, sent);
    pick := t.current;
  }

  /** As written: a target registered for pool 7 is destroyed, and a release
      for pool 7 that the host sends afterwards is still routed to it. */
  method ReleaseAfterDestroy() returns (t: EGLTarget, r: Handling)
    ensures t.destroyed && r == BufferReleased(7, 0)
  {
    var backend := new RendererBackend();
    t := new EGLTarget(1);
    t.Initialize(backend, 640, 480, Delivery(MessageSize, PoolConstructionReply(7)));
    t.Destroy();
    SingleTargetValid(backend, 7, t);
    r := backend.HandleMessage(Delivery(MessageSize, ReleaseBuffer(7, 0)));
  }

  /** As intended: once the destroyed target's entries are erased, the same
      release no longer reaches it; pool 7 is simply unknown. */
  method ReleaseAfterUnregister() returns (t: EGLTarget, r: Handling)
    ensures t.destroyed && r == Fatal(7)
  {
    var backend := new RendererBackend();
    t := new EGLTarget(1);
    t.Initialize(backend, 640, 480, Delivery(MessageSize, PoolConstructionReply(7)));
    t.DestroyAndUnregister();
    r := backend.HandleMessage(Delivery(MessageSize, ReleaseBuffer(7, 0)));
  }
}
