/** The ring buffer's bookkeeping: an unordered vector of elements with a
    read and a write position. Only creation, initialisation and the two
    clear operations are modelled; queue and peek are declared but have no
    body in the sources this model follows. */
module RingBuffer {
  import opened Base
  import Vector

  datatype Ring<T> = Ring(elementSize: Uint32, vector: Vector.Vec<T>, read: Uint32, write: Uint32)

  /** The positions of a buffer nothing has been queued into. */
  predicate Reset<T>(rb: Ring<T>)
  {
    rb.read == 0 && rb.write == 1
  }

  /** ring_buffer_init: an empty vector for elements of `elementSize`
      bytes, read position 0 and write position 1. */
  function Init<T>(elementSize: Uint32): (rb: Ring<T>)
    ensures rb.vector.Valid() && rb.vector.items == []
    ensures Reset(rb) && rb.elementSize == elementSize
  {
    Ring(elementSize, Vector.Init(), 0, 1)
  }

  /** ring_buffer_create: allocate the record and initialise it, or `None`
      when the allocation fails. An element size of zero is rejected by an
      assertion, so it is a precondition here. */
  function Create<T>(elementSize: Uint32, allocOk: bool): (r: Option<Ring<T>>)
    requires elementSize > 0
    ensures r.Some? <==> allocOk
    ensures r.Some? ==> r.value.vector.items == [] && Reset(r.value)
    ensures r.Some? ==> r.value.elementSize == elementSize
  {
    if allocOk then Some(Init(elementSize)) else None
  }

  /** ring_buffer_clear: empty the vector, keeping its allocation, and
      reset both positions. */
  function Clear<T>(rb: Ring<T>): (r: Ring<T>)
    ensures r.vector.items == [] && r.vector.capacity == rb.vector.capacity
    ensures Reset(r) && r.elementSize == rb.elementSize
  {
    rb.(vector := Vector.Clear(rb.vector), read := 0, write := 1)
  }

  /** ring_buffer_clear_free: empty the vector and free its allocation; the
      read and write positions are left as they were. */
  function ClearFree<T>(rb: Ring<T>): (r: Ring<T>)
    ensures r.vector.items == [] && r.vector.capacity == 0
    ensures r.read == rb.read && r.write == rb.write && r.elementSize == rb.elementSize
  {
    rb.(vector := Vector.ClearFree(rb.vector))
  }

  /** Clearing brings any buffer back to the state initialisation gives it,
      up to the allocation it keeps, and clearing twice is clearing once. */
  lemma ClearRestoresInit<T>(rb: Ring<T>)
    ensures Clear(rb) == Init<T>(rb.elementSize).(vector := Clear(rb).vector)
    ensures Clear(Clear(rb)) == Clear(rb)
  {
  }

  /** Clearing with free after clearing gives exactly an initialised buffer;
      freeing alone leaves a dirty buffer's positions as they were. */
  lemma ClearFreeAfterClearIsInit<T>(rb: Ring<T>)
    ensures ClearFree(Clear(rb)) == Init<T>(rb.elementSize)
    ensures !Reset(rb) ==> !Reset(ClearFree(rb))
  {
  }
}
