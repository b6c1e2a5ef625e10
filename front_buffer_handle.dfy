/** The lock handle inside `gbm::FrontBuffer` and what its lifetime does to
    the allocator's buffer locks. A handle holds a surface and a locked buffer
    object; its destructor gives the pair back to the allocator, whatever it
    holds. Its move constructor and move assignment are the defaulted
    member-wise copies: the moved-from handle keeps both pointers, and the
    assigned-to handle drops what it held without giving it back.

    The present cycle of `Output.Display` keeps only the buffer object of each
    slot; this module follows the handles themselves and the releases they
    cause, with the allocator's surface as an opaque number. */
module FrontBufferHandle {
  import opened DrmTypes

  type SurfaceId = nat

  datatype Handle = Handle(surface: Option<SurfaceId>, buffer: Option<BufferObject>)

  /** One `gbm_surface_release_buffer(surface, buffer)` call. */
  datatype Release = Release(surface: Option<SurfaceId>, buffer: Option<BufferObject>)

  /** `explicit operator bool`: both pointers are set. */
  predicate Truthy(h: Handle) {
    h.surface.Some? && h.buffer.Some?
  }

  /** `FrontBuffer::create` on `surface`, where `locked` is what
      `gbm_surface_lock_front_buffer` yields: the empty handle on failure. */
  function Lock(surface: SurfaceId, locked: Option<BufferObject>): (h: Handle)
    ensures Truthy(h) <==> locked.Some?
    ensures h.buffer == locked
    ensures locked.Some? ==> h.surface == Some(surface)
    ensures locked.None? ==> h == Handle(None, None)
  {
    if locked.None? then Handle(None, None) else Handle(Some(surface), locked)
  }

  /** The destructor's call: it releases whatever the handle holds. */
  function Destroy(h: Handle): (r: Release)
    ensures r.surface == h.surface && r.buffer == h.buffer
  {
    Release(h.surface, h.buffer)
  }

  /** Release `r` gives back the lock that `h` holds. */
  predicate Releases(r: Release, h: Handle) {
    r.surface == h.surface && r.buffer == h.buffer
  }

  /** A scope that ends with `slot = std::move(front)`: the slot and the
      releases afterwards. The defaulted move leaves `front` as it was, so its
      destructor at the end of the scope releases the buffer the slot now
      holds, and the slot's previous lock is dropped without a release. */
  function Commit(slot: Handle, front: Handle): (r: (Handle, seq<Release>))
    ensures r.0 == front
    ensures |r.1| == 1 && Releases(r.1[0], r.0)
  {
    (front, [Destroy(front)])
  }

  /** A scope that returns before committing: `front` is released and the
      slot is untouched. */
  function Discard(slot: Handle, front: Handle): (r: (Handle, seq<Release>))
    ensures r.0 == slot
    ensures r.1 == [Destroy(front)]
  {
    (slot, [Destroy(front)])
  }

  /** `finish_swap_buffers`: `current = std::move(next)` with no release; the
      next slot keeps its lock. */
  function Rotate(current: Handle, next: Handle): (r: (Handle, Handle, seq<Release>))
    ensures r.0 == next && r.1 == next && r.2 == []
  {
    (next, next, [])
  }

  /** Successive successful commits into one slot of buffer objects locked
      from `surface`, in order: the slot afterwards and all releases. */
  function CommitAll(slot: Handle, surface: SurfaceId, locked: seq<BufferObject>): (r: (Handle, seq<Release>))
    ensures |r.1| == |locked|
    ensures locked == [] ==> r.0 == slot
    ensures locked != [] ==> Truthy(r.0) && r.0.surface == Some(surface)
    decreases |locked|
  {
    if locked == [] then (slot, [])
    else
      var step := Commit(slot, Lock(surface, Some(locked[0])));
      var rest := CommitAll(step.0, surface, locked[1..]);
      (rest.0, step.1 + rest.1)
  }

  /** A committed lock is released at the end of the scope that committed it,
      while the slot still holds it; the lock the slot held before is not
      released. */
  lemma CommitReleasesHeldLock(slot: Handle, surface: SurfaceId, bo: BufferObject)
    requires slot.buffer != Some(bo)
    ensures var (after, released) := Commit(slot, Lock(surface, Some(bo)));
            && Truthy(after) && after.buffer == Some(bo)
            && released == [Release(Some(surface), Some(bo))]
            && !exists k :: 0 <= k < |released| && Releases(released[k], slot)
  {
  }

  /** A failed lock still runs the destructor of the empty handle, which
      calls the release with two null pointers; the slot is untouched. */
  lemma FailedLockReleasesNullPair(slot: Handle, surface: SurfaceId)
    ensures Discard(slot, Lock(surface, None)) == (slot, [Release(None, None)])
  {
  }

  /** After `finish_swap_buffers` both slots hold the same lock, the next slot
      still reads as holding a buffer, and the lock that was current is never
      released. */
  lemma RotateKeepsNextTruthy(current: Handle, next: Handle)
    ensures var (current', next', released) := Rotate(current, next);
            && current' == next' == next
            && Truthy(next') == Truthy(next)
            && released == []
  {
  }

  /** Over any number of successful commits into one slot, the releases are
      exactly the committed locks in commit order, so the lock the slot holds
      at the end has already been released, and the lock it held at the start
      is never released unless it was committed again. */
  lemma {:induction false} CommitAllReleasesEveryCommittedLock(slot: Handle, surface: SurfaceId, locked: seq<BufferObject>)
    ensures var (after, released) := CommitAll(slot, surface, locked);
            && |released| == |locked|
            && (forall k :: 0 <= k < |locked| ==> released[k] == Release(Some(surface), Some(locked[k])))
            && (locked != [] ==> after == Handle(Some(surface), Some(locked[|locked| - 1])) && Releases(released[|locked| - 1], after))
            && (locked == [] ==> after == slot)
    decreases |locked|
  {
    if locked != [] {
      var step := Commit(slot, Lock(surface, Some(locked[0])));
      CommitAllReleasesEveryCommittedLock(step.0, surface, locked[1..]);
      var rest := CommitAll(step.0, surface, locked[1..]);
      assert CommitAll(slot, surface, locked) == (rest.0, step.1 + rest.1);
      forall k | 1 <= k < |locked|
        ensures (step.1 + rest.1)[k] == Release(Some(surface), Some(locked[k]))
      {
        assert (step.1 + rest.1)[k] == rest.1[k - 1];
        assert locked[1..][k - 1] == locked[k];
      }
    }
  }
}
