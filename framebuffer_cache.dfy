/** The scan-out framebuffer cache of `gbm::FrontBuffer::ensure_framebuffer`.
    The source attaches a kernel framebuffer to an allocator buffer object as
    the object's user data; here the user data of every buffer object is one
    side table from buffer object to framebuffer id. Creating a framebuffer
    (`drmModeAddFB`) is an oracle: whether it succeeds, and the id it yields. */
module FrameBufferCache {
  import opened DrmTypes

  /** The result of one `ensure_framebuffer` call: the framebuffer id it
      returns (None for the null pointer) and the side table afterwards. */
  datatype Ensured = Ensured(framebuffer: Option<uint32>, table: map<BufferObject, uint32>)

  /** `ensure_framebuffer` on buffer object `bo`: the attached framebuffer
      when there is one; otherwise a new one, attached, when `addOk`; else
      nothing. */
  function Ensure(table: map<BufferObject, uint32>, bo: BufferObject, addOk: bool, newId: uint32): (r: Ensured)
    ensures bo in table ==> r == Ensured(Some(table[bo]), table)
    ensures r.framebuffer.Some? <==> (bo in table || addOk)
    ensures r.framebuffer.Some? ==> bo in r.table && r.table[bo] == r.framebuffer.value
    ensures bo !in table && addOk ==> r.framebuffer == Some(newId)
    ensures r.framebuffer.None? ==> r.table == table
    ensures r.table.Keys == if r.framebuffer.Some? then table.Keys + {bo} else table.Keys
    ensures forall b :: b in table ==> b in r.table && r.table[b] == table[b]
  {
    if bo in table then
      Ensured(Some(table[bo]), table)
    else if !addOk then
      Ensured(None, table)
    else
      Ensured(Some(newId), table[bo := newId])
  }

  /** Once a call has returned a framebuffer, a second call on the same buffer
      object returns the same framebuffer and leaves the table alone, whatever
      the kernel would answer to a new creation request. */
  lemma EnsureIsIdempotent(table: map<BufferObject, uint32>, bo: BufferObject, addOk: bool, newId: uint32, addOk2: bool, newId2: uint32)
    requires Ensure(table, bo, addOk, newId).framebuffer.Some?
    ensures var first := Ensure(table, bo, addOk, newId);
            Ensure(first.table, bo, addOk2, newId2) == first
  {
  }

  /** The user data of the allocator's buffer objects. */
  class BufferObjects {
    var framebufferOf: map<BufferObject, uint32>

    constructor ()
      ensures framebufferOf == map[]
    {
      framebufferOf := map[];
    }

    /** `FrontBuffer::ensure_framebuffer` for the locked buffer object `bo`. */
    method EnsureFramebuffer(bo: BufferObject, addOk: bool, newId: uint32) returns (framebuffer: Option<uint32>)
      modifies this
      ensures Ensured(framebuffer, framebufferOf) == Ensure(old(framebufferOf), bo, addOk, newId)
    {
      if bo in framebufferOf {
        return Some(framebufferOf[bo]);
      }
      if !addOk {
        return None;
      }
      framebufferOf := framebufferOf[bo := newId];
      return Some(newId);
    }
  }
}
