/** One output's present cycle: class `Display` with its two front-buffer
    locks and its page-flip flag, `drm::begin_page_flip`, and the flip
    handler `detail::mark_flip_no_longer_pending`.

    Buffer locks are plain optional tokens: `Some(bo)` is a lock on buffer
    object `bo`, `None` an empty lock. The native calls of one present
    attempt are oracle inputs (see `Attempt`). The pure functions below give
    the state machine; the class methods are proved against them. */
module Output {
  import opened DrmTypes
  import opened FrameBufferCache

  /** The `bool` that `begin_page_flip` writes through a reference and that
      the flip handler reaches through the event's user-data pointer. */
  class PendingFlag {
    var pending: bool

    constructor ()
      ensures !pending
    {
      pending := false;
    }
  }

  /** `drm::begin_page_flip`: request an asynchronous flip (`kernelOk` is the
      kernel's answer); only a successful request marks the flip pending. */
  method BeginPageFlip(flag: PendingFlag, kernelOk: bool) returns (ok: bool)
    modifies flag
    ensures ok == kernelOk
    ensures flag.pending == (ok || old(flag.pending))
  {
    if !kernelOk {
      return false;
    }
    flag.pending := true;
    return true;
  }

  /** `detail::mark_flip_no_longer_pending`: the flip-completion handler
      clears the flag its user data points to. */
  method MarkFlipNoLongerPending(flag: PendingFlag)
    modifies flag
    ensures !flag.pending
  {
    flag.pending := false;
  }

  /** The answers of the native calls during one `set_mode` or
      `begin_swap_buffers`: the buffer object the front-buffer lock yields
      (None when the allocator has none), whether a new framebuffer can be
      created for it and its id, and the kernel's answer to the mode set or
      page flip. */
  datatype Attempt = Attempt(locked: Option<BufferObject>, addOk: bool, newId: uint32, kernelOk: bool)

  /** The part of a `Display` the present cycle changes. */
  datatype OutputState = OutputState(
    current: Option<BufferObject>,
    next: Option<BufferObject>,
    pending: bool,
    framebuffers: map<BufferObject, uint32>)

  datatype Step = Step(ok: bool, state: OutputState)

  /** Lock, then ensure a framebuffer: the framebuffer id the kernel call
      would use, and the cache afterwards. */
  function LockAndEnsure(s: OutputState, a: Attempt): (r: Ensured)
    ensures a.locked.None? ==> r == Ensured(None, s.framebuffers)
    ensures a.locked.Some? ==> r == Ensure(s.framebuffers, a.locked.value, a.addOk, a.newId)
  {
    if a.locked.None? then Ensured(None, s.framebuffers)
    else Ensure(s.framebuffers, a.locked.value, a.addOk, a.newId)
  }

  /** `Display::set_mode`: the locked buffer becomes current exactly when the
      lock, the framebuffer and the mode set all succeed. */
  function SetModeStep(s: OutputState, a: Attempt): (r: Step)
    ensures r.ok <==> a.locked.Some? && (a.locked.value in s.framebuffers || a.addOk) && a.kernelOk
    ensures r.state.current == if r.ok then a.locked else s.current
    ensures r.state.next == s.next && r.state.pending == s.pending
    ensures r.state.framebuffers == LockAndEnsure(s, a).table
  {
    var e := LockAndEnsure(s, a);
    if e.framebuffer.None? then Step(false, s)
    else if a.kernelOk then Step(true, s.(current := a.locked, framebuffers := e.table))
    else Step(false, s.(framebuffers := e.table))
  }

  /** `Display::begin_swap_buffers`: the locked buffer becomes next, and the
      flip becomes pending, exactly when the lock, the framebuffer and the
      flip request all succeed; the current buffer is never touched. */
  function BeginSwapStep(s: OutputState, a: Attempt): (r: Step)
    requires s.current.Some?
    ensures r.ok <==> a.locked.Some? && (a.locked.value in s.framebuffers || a.addOk) && a.kernelOk
    ensures r.state.next == if r.ok then a.locked else s.next
    ensures r.state.pending == (r.ok || s.pending)
    ensures r.state.current == s.current
    ensures r.state.framebuffers == LockAndEnsure(s, a).table
  {
    var e := LockAndEnsure(s, a);
    if e.framebuffer.None? then Step(false, s)
    else if a.kernelOk then Step(true, s.(next := a.locked, pending := true, framebuffers := e.table))
    else Step(false, s.(framebuffers := e.table))
  }

  /** `Display::finish_swap_buffers`: next rotates into current. The source
      assigns with the defaulted move of the lock handle, which does not clear
      the moved-from lock, so next keeps the same buffer object. */
  function FinishSwapStep(s: OutputState): (r: OutputState)
    requires !s.pending
    ensures r.current == s.next && r.next == s.next
    ensures r.pending == s.pending && r.framebuffers == s.framebuffers
  {
    s.(current := s.next)
  }

  /** One full present: after a successful `begin_swap_buffers`, the flip is
      pending, so `finish_swap_buffers` is not allowed until the completion
      handler has run; after it, the newly locked buffer is current and has a
      cached framebuffer. */
  lemma PresentCycle(s: OutputState, a: Attempt)
    requires s.current.Some?
    requires BeginSwapStep(s, a).ok
    ensures var begun := BeginSwapStep(s, a).state;
            && begun.pending
            && var done := FinishSwapStep(begun.(pending := false));
            && done.current == a.locked
            && !done.pending
            && a.locked.value in done.framebuffers
            && done.framebuffers == begun.framebuffers
  {
  }

  /** Presenting a buffer object that already has a framebuffer reuses it:
      the creation oracle is not consulted and the cache does not change. */
  lemma RepresentReusesFramebuffer(s: OutputState, a: Attempt, addOk: bool, newId: uint32)
    requires s.current.Some? && a.locked.Some? && a.locked.value in s.framebuffers
    ensures BeginSwapStep(s, a) == BeginSwapStep(s, a.(addOk := addOk, newId := newId))
    ensures BeginSwapStep(s, a).state.framebuffers == s.framebuffers
    ensures BeginSwapStep(s, a).ok == a.kernelOk
  {
  }

  /** A failed attempt (no lock, no framebuffer, or a refused kernel call)
      leaves the buffers and the flag as they were. */
  lemma FailedAttemptKeepsBuffers(s: OutputState, a: Attempt)
    requires s.current.Some?
    ensures !SetModeStep(s, a).ok ==> SetModeStep(s, a).state.(framebuffers := s.framebuffers) == s
    ensures !BeginSwapStep(s, a).ok ==> BeginSwapStep(s, a).state.(framebuffers := s.framebuffers) == s
  {
  }

  /** One monitor's output. The thread that created it, whether its
      allocator surface exists, and its CRTC never change; the two lock
      slots and the flag change during the present cycle. The buffer-object
      side table of its surface is `buffers`. */
  class Display {
    const threadId: ThreadId
    const hasSurface: bool
    const crtcId: uint32
    const buffers: BufferObjects
    const waitingForPageFlip: PendingFlag
    var currentFrontBuffer: Option<BufferObject>
    var nextFrontBuffer: Option<BufferObject>

    ghost function State(): OutputState
      reads this, buffers, waitingForPageFlip
    {
      OutputState(currentFrontBuffer, nextFrontBuffer, waitingForPageFlip.pending, buffers.framebufferOf)
    }

    /** `explicit operator bool`: the surface exists and the caller is the
        thread that created the output. At most one thread can use it. */
    predicate Usable(caller: ThreadId) {
      hasSurface && caller == threadId
    }

    /** Only one thread can use an output. */
    lemma UsableOnOneThreadOnly(a: ThreadId, b: ThreadId)
      requires Usable(a) && Usable(b)
      ensures a == b
    {
    }

    /** `Display::crtc_id`, which asserts that the output is usable. */
    method CrtcId(caller: ThreadId) returns (id: uint32)
      requires Usable(caller)
      ensures id == crtcId
    {
      id := crtcId;
    }

    /** `Display::create`, called on thread `caller`: the allocator surface
        (`surfaceOk`) and then the child rendering context (`contextOk`) are
        created; if either fails the result is the empty output, which has
        no surface and CRTC 0. */
    constructor Create(surfaceOk: bool, contextOk: bool, crtc: uint32, caller: ThreadId)
      ensures threadId == caller
      ensures hasSurface == (surfaceOk && contextOk)
      ensures forall t: ThreadId :: Usable(t) <==> surfaceOk && contextOk && t == caller
      ensures crtcId == if hasSurface then crtc else 0
      ensures currentFrontBuffer == None && nextFrontBuffer == None
      ensures fresh(buffers) && fresh(waitingForPageFlip)
      ensures State() == OutputState(None, None, false, map[])
    {
      threadId := caller;
      hasSurface := surfaceOk && contextOk;
      crtcId := if surfaceOk && contextOk then crtc else 0;
      buffers := new BufferObjects();
      waitingForPageFlip := new PendingFlag();
      currentFrontBuffer := None;
      nextFrontBuffer := None;
    }

    /** `Display::set_mode`: render, lock the new front buffer, ensure its
        framebuffer and set the CRTC's mode; commit only on success. */
    method SetMode(caller: ThreadId, a: Attempt) returns (ok: bool)
      requires Usable(caller)
      modifies this, buffers
      ensures Step(ok, State()) == SetModeStep(old(State()), a)
    {
      var front := a.locked;
      if front.None? {
        return false;
      }
      var framebuffer := buffers.EnsureFramebuffer(front.value, a.addOk, a.newId);
      if framebuffer.None? {
        return false;
      }
      if a.kernelOk {
        currentFrontBuffer := front;
        return true;
      } else {
        return false;
      }
    }

    /** `Display::begin_swap_buffers`: render, lock the new front buffer,
        ensure its framebuffer and request the page flip; the lock becomes
        next only on success. */
    method BeginSwapBuffers(caller: ThreadId, a: Attempt) returns (ok: bool)
      requires Usable(caller) && currentFrontBuffer.Some?
      modifies this, buffers, waitingForPageFlip
      ensures Step(ok, State()) == BeginSwapStep(old(State()), a)
    {
      var front := a.locked;
      if front.None? {
        return false;
      }
      var framebuffer := buffers.EnsureFramebuffer(front.value, a.addOk, a.newId);
      if framebuffer.None? {
        return false;
      }
      ok := BeginPageFlip(waitingForPageFlip, a.kernelOk);
      if ok {
        nextFrontBuffer := front;
      }
    }

    /** `Display::buffer_swap_is_pending`. */
    method BufferSwapIsPending(caller: ThreadId) returns (pending: bool)
      requires Usable(caller)
      ensures pending == waitingForPageFlip.pending
    {
      pending := waitingForPageFlip.pending;
    }

    /** `Display::handle_event` while a flip is pending: the device's event
        queue is read (`readOk`); when the read delivers this output's
        completion event (`ownEvent`) the handler clears the flag. The source
        returns `drmHandleEvent(...)` converted to `bool`, which is true on
        failure. */
    method HandleEvent(caller: ThreadId, readOk: bool, ownEvent: bool) returns (failed: bool)
      requires Usable(caller) && waitingForPageFlip.pending
      modifies waitingForPageFlip
      ensures failed == !readOk
      ensures waitingForPageFlip.pending == !(readOk && ownEvent)
    {
      if readOk && ownEvent {
        MarkFlipNoLongerPending(waitingForPageFlip);
      }
      failed := !readOk;
    }

    /** `Display::finish_swap_buffers`. */
    method FinishSwapBuffers(caller: ThreadId)
      requires Usable(caller) && !waitingForPageFlip.pending
      modifies this
      ensures State() == FinishSwapStep(old(State()))
    {
      currentFrontBuffer := nextFrontBuffer;
    }
  }
}
