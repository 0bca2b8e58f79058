/**
 * The slots of one buffer pool, as values: what a Buffer holds, and the
 * specification functions the EGLTarget methods are proved against (first-free
 * selection, release by buffer ID, purge), with the properties the pool
 * protocol relies on.
 */
module BufferPool {
  import opened Wrappers

  /** Every pool has exactly this many slots (a std::array<Buffer, 4>). */
  const PoolSize: nat := 4

  /** An AHardwareBuffer*, kept opaque. */
  datatype Handle = Handle(id: nat)

  /** The EGL image and the colour and depth/stencil renderbuffer names derived
      from a slot's handle; 0 stands for "none" (EGL_NO_IMAGE_KHR, no name). */
  datatype GpuObjects = GpuObjects(image: nat, colorBuffer: nat, dsBuffer: nat)

  const NoGpuObjects := GpuObjects(0, 0, 0)

  /** One slot: its stable ID, whether the host holds it, and its lazily
      allocated handle (None is nullptr) with the GPU objects made from it. */
  datatype Buffer = Buffer(bufferID: nat, locked: bool, handle: Option<Handle>, gpu: GpuObjects)

  /** A Buffer as default-initialised, before its ID is stamped. */
  const DefaultBuffer := Buffer(0, false, None, NoGpuObjects)

  /** Slot i carries bufferID i. */
  predicate IdsAreIndices(s: seq<Buffer>)
  {
    forall i | 0 <= i < |s| :: s[i].bufferID == i
  }

  /** GPU objects exist only for a slot that holds a handle. */
  predicate Owned(b: Buffer)
  {
    b.handle.None? ==> b.gpu == NoGpuObjects
  }

  /** The pool right after an EGLTarget is constructed. */
  function InitialPool(): seq<Buffer>
  {
    seq(PoolSize, (i: nat) => DefaultBuffer.(bufferID := i))
  }

  /** The slot frameWillRender's scan stops at: the lowest-index unlocked one. */
  function FirstFree(s: seq<Buffer>): (r: Option<nat>)
    ensures r.Some? ==> r.value < |s| && !s[r.value].locked
    ensures r.Some? ==> forall j | 0 <= j < r.value :: s[j].locked
    ensures r.None? <==> forall j | 0 <= j < |s| :: s[j].locked
  {
    if s == [] then None
    else if !s[0].locked then Some(0)
    else match FirstFree(s[1..])
      case None => None
      case Some(k) => Some(k + 1)
  }

  /** frameRendered's effect on the slots: slot i becomes locked. */
  function Lock(s: seq<Buffer>, i: nat): seq<Buffer>
    requires i < |s|
  {
    s[i := s[i].(locked := true)]
  }

  /** The slot releaseBuffer's scan stops at: the first one with that ID. */
  function IndexOf(s: seq<Buffer>, id: nat): (r: Option<nat>)
    ensures r.Some? ==> r.value < |s| && s[r.value].bufferID == id
    ensures r.Some? ==> forall j | 0 <= j < r.value :: s[j].bufferID != id
    ensures r.None? <==> forall j | 0 <= j < |s| :: s[j].bufferID != id
  {
    if s == [] then None
    else if s[0].bufferID == id then Some(0)
    else match IndexOf(s[1..], id)
      case None => None
      case Some(k) => Some(k + 1)
  }

  /** releaseBuffer's effect on the slots of a matching pool: the first slot
      with that ID is unlocked; an unknown ID changes nothing. */
  function Release(s: seq<Buffer>, id: nat): seq<Buffer>
  {
    match IndexOf(s, id)
    case None => s
    case Some(k) => s[k := s[k].(locked := false)]
  }

  /** Release notifications for the same pool, applied in delivery order. */
  function ReleaseAll(s: seq<Buffer>, ids: seq<nat>): seq<Buffer>
    decreases |ids|
  {
    if ids == [] then s else ReleaseAll(Release(s, ids[0]), ids[1..])
  }

  /** destroyBufferPool's effect on one slot: GPU objects gone, handle
      released, lock cleared; the ID stays. */
  function Reset(b: Buffer): Buffer
  {
    b.(locked := false, handle := None, gpu := NoGpuObjects)
  }

  function Purged(s: seq<Buffer>): seq<Buffer>
  {
    seq(|s|, i requires 0 <= i < |s| => Reset(s[i]))
  }

  /** The handle a slot gives to AHardwareBuffer_release on a purge, if any. */
  function HandleOf(b: Buffer): seq<Handle>
  {
    if b.handle.Some? then [b.handle.value] else []
  }

  /** The handles a purge releases, in slot order. */
  function Handles(s: seq<Buffer>): seq<Handle>
  {
    if s == [] then [] else Handles(s[..|s| - 1]) + HandleOf(s[|s| - 1])
  }

  // ---------------------------------------------------------------------
  // Properties of the pool operations
  // ---------------------------------------------------------------------

  /** A freshly constructed pool has IDs 0..3, nothing locked and no handle,
      so the first frame takes slot 0. */
  lemma InitialPoolIsEmpty()
    ensures |InitialPool()| == PoolSize && IdsAreIndices(InitialPool())
    ensures forall i | 0 <= i < PoolSize ::
              !InitialPool()[i].locked && InitialPool()[i].handle.None? && Owned(InitialPool()[i])
    ensures FirstFree(InitialPool()) == Some(0)
  {
  }

  /** Locking changes the lock of that slot only, and keeps IDs and ownership. */
  lemma LockOnlyThatSlot(s: seq<Buffer>, i: nat)
    requires i < |s|
    ensures |Lock(s, i)| == |s| && Lock(s, i)[i].locked
    ensures forall j | 0 <= j < |s| && j != i :: Lock(s, i)[j] == s[j]
    ensures forall j | 0 <= j < |s| :: Lock(s, i)[j].bufferID == s[j].bufferID
                                    && Lock(s, i)[j].handle == s[j].handle
    ensures IdsAreIndices(s) ==> IdsAreIndices(Lock(s, i))
  {
  }

  /** In a pool whose IDs are its indices, a release of bufferID `id` unlocks
      exactly slot `id`, and an ID outside the pool changes nothing. */
  lemma ReleaseUnlocksExactly(s: seq<Buffer>, id: nat)
    requires IdsAreIndices(s)
    ensures |Release(s, id)| == |s| && IdsAreIndices(Release(s, id))
    ensures forall j | 0 <= j < |s| ::
              Release(s, id)[j] == if j == id then s[j].(locked := false) else s[j]
  {
  }

  /** Where the first slot with a given ID lies depends on the IDs only. */
  lemma IndexOfSameIds(s: seq<Buffer>, t: seq<Buffer>, id: nat)
    requires |s| == |t|
    requires forall j | 0 <= j < |s| :: s[j].bufferID == t[j].bufferID
    ensures IndexOf(s, id) == IndexOf(t, id)
  {
  }

  /** Two release notifications for one pool have the same effect in either
      order, whatever the IDs in the pool. */
  lemma ReleaseCommutes(s: seq<Buffer>, a: nat, b: nat)
    ensures Release(Release(s, a), b) == Release(Release(s, b), a)
  {
  }

  /** A sequence of release notifications unlocks exactly the slots it names
      and leaves every other slot as it was. */
  lemma {:induction false} ReleaseAllUnlocks(s: seq<Buffer>, ids: seq<nat>)
    requires IdsAreIndices(s)
    ensures |ReleaseAll(s, ids)| == |s| && IdsAreIndices(ReleaseAll(s, ids))
    ensures forall j | 0 <= j < |s| ::
              ReleaseAll(s, ids)[j] == if j in ids then s[j].(locked := false) else s[j]
    decreases |ids|
  {
    if ids != [] {
      var s' := Release(s, ids[0]);
      ReleaseUnlocksExactly(s, ids[0]);
      ReleaseAllUnlocks(s', ids[1..]);
      forall j | 0 <= j < |s|
        ensures ReleaseAll(s, ids)[j] == if j in ids then s[j].(locked := false) else s[j]
      {
        assert j in ids <==> j == ids[0] || j in ids[1..];
      }
    }
  }

  /** The result of a batch of release notifications depends only on which
      IDs were released, not on the order in which they arrived. */
  lemma ReleaseOrderIrrelevant(s: seq<Buffer>, ids: seq<nat>, ids': seq<nat>)
    requires IdsAreIndices(s)
    requires forall x :: x in ids <==> x in ids'
    ensures ReleaseAll(s, ids) == ReleaseAll(s, ids')
  {
    ReleaseAllUnlocks(s, ids);
    ReleaseAllUnlocks(s, ids');
  }

  /** After a purge every slot keeps its ID and is unlocked with no handle and
      no GPU objects, so the next frame takes slot 0 and must allocate. */
  lemma PurgeResets(s: seq<Buffer>)
    ensures |Purged(s)| == |s|
    ensures forall j | 0 <= j < |s| ::
              Purged(s)[j].bufferID == s[j].bufferID && !Purged(s)[j].locked
              && Purged(s)[j].handle.None? && Owned(Purged(s)[j])
    ensures IdsAreIndices(s) ==> IdsAreIndices(Purged(s))
    ensures FirstFree(Purged(s)) == if |s| == 0 then None else Some(0)
  {
  }

  /** A purged pool holds no handle: a second purge releases nothing. */
  lemma {:induction false} PurgedHoldsNoHandle(s: seq<Buffer>)
    ensures Handles(Purged(s)) == []
  {
    if s != [] {
      var n := |s| - 1;
      assert Purged(s)[..n] == Purged(s[..n]);
      PurgedHoldsNoHandle(s[..n]);
    }
  }

  /** A purge releases exactly the handles the slots hold: every handle it
      releases is one a slot held, every held handle is released (nothing
      leaks), and it releases no more handles than there are slots. */
  lemma {:induction false} HandlesAreHeld(s: seq<Buffer>)
    ensures |Handles(s)| <= |s|
    ensures forall h | h in Handles(s) :: exists j | 0 <= j < |s| :: s[j].handle == Some(h)
    ensures forall j | 0 <= j < |s| && s[j].handle.Some? :: s[j].handle.value in Handles(s)
  {
    if s != [] {
      var n := |s| - 1;
      HandlesAreHeld(s[..n]);
      forall j | 0 <= j < |s| && s[j].handle.Some? ensures s[j].handle.value in Handles(s)
      {
        if j < n {
          assert s[..n][j] == s[j];
        }
      }
      forall h | h in Handles(s) ensures exists j | 0 <= j < |s| :: s[j].handle == Some(h)
      {
        if h in Handles(s[..n]) {
          var j :| 0 <= j < n && s[..n][j].handle == Some(h);
          assert s[j].handle == Some(h);
        } else {
          assert s[n].handle == Some(h);
        }
      }
    }
  }

  /** destroyBufferPool: purges every slot of the array in place and returns
      the handles passed to AHardwareBuffer_release, in slot order. */
  method DestroyBufferPool(pool: array<Buffer>) returns (released: seq<Handle>)
    modifies pool
    ensures pool[..] == Purged(old(pool[..]))
    ensures released == Handles(old(pool[..]))
  {
    ghost var before := pool[..];
    released := [];
    for i := 0 to pool.Length
      invariant forall j | 0 <= j < i :: pool[j] == Reset(before[j])
      invariant forall j | i <= j < pool.Length :: pool[j] == before[j]
      invariant released == Handles(before[..i])
    {
      assert before[..i + 1][..i] == before[..i];
      released := released + HandleOf(pool[i]);
      pool[i] := Reset(pool[i]);
    }
    assert before[..pool.Length] == before;
  }
}
