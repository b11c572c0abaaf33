/** The contiguous vector the engine stores everything in, reduced to the
    contract its header documents: a count of elements held in order, a
    capacity of allocated slots that doubles when it runs out, and NULL
    returns for reads past the end. The element bytes are abstracted to
    values of type `T`; a failed reallocation is an oracle argument. */
module Vector {
  import opened Base

  /** `items` are the `count` elements in memory order; `capacity` is the
      number of slots the allocation holds. */
  datatype Vec<T> = Vec(items: seq<T>, capacity: nat)
  {
    /** The allocation always holds the elements. */
    predicate Valid()
    {
      |items| <= capacity
    }
  }

  /** A freshly initialised vector: no elements and no allocation. */
  function Init<T>(): (v: Vec<T>)
    ensures v.Valid() && v.items == [] && v.capacity == 0
  {
    Vec([], 0)
  }

  /** The capacity after a reallocation: double the old one. The first
      allocation, from an empty buffer, holds one element. */
  function Grown(capacity: nat): (c: nat)
    ensures c > capacity
    ensures capacity > 0 ==> c == 2 * capacity
  {
    if capacity == 0 then 1 else 2 * capacity
  }

  /** ordered_vector_push: append `x`. When the buffer is full it is
      reallocated first; `allocOk` says whether that reallocation succeeds.
      The flag is the function's non-zero / zero return. */
  function Push<T>(v: Vec<T>, x: T, allocOk: bool): (r: (Vec<T>, bool))
    requires v.Valid()
    ensures r.0.Valid()
    ensures r.1 <==> (|v.items| < v.capacity || allocOk)
    ensures r.1 ==> r.0.items == v.items + [x]
    ensures !r.1 ==> r.0 == v
    ensures r.1 && |v.items| < v.capacity ==> r.0.capacity == v.capacity
    ensures r.1 && |v.items| == v.capacity ==> r.0.capacity == Grown(v.capacity)
  {
    if |v.items| < v.capacity then (Vec(v.items + [x], v.capacity), true)
    else if allocOk then (Vec(v.items + [x], Grown(v.capacity)), true)
    else (v, false)
  }

  /** ordered_vector_pop: remove the last element and return it, or `None`
      when there is nothing to pop. The allocation is kept. */
  function Pop<T>(v: Vec<T>): (r: (Option<T>, Vec<T>))
    requires v.Valid()
    ensures r.1.Valid() && r.1.capacity == v.capacity
    ensures r.0.None? <==> v.items == []
    ensures r.0.None? ==> r.1 == v
    ensures r.0.Some? ==> v.items == r.1.items + [r.0.value]
  {
    if v.items == [] then (None, v)
    else (Some(v.items[|v.items| - 1]), Vec(v.items[..|v.items| - 1], v.capacity))
  }

  /** ordered_vector_back: the last element, or `None` when empty. */
  function Back<T>(v: Vec<T>): (r: Option<T>)
    ensures r.None? <==> v.items == []
    ensures r.Some? ==> r.value == v.items[|v.items| - 1]
  {
    if v.items == [] then None else Some(v.items[|v.items| - 1])
  }

  /** ordered_vector_get_element: the element at `index`, or `None` when
      the index is out of bounds. */
  function GetElement<T>(v: Vec<T>, index: nat): (r: Option<T>)
    ensures r.Some? <==> index < |v.items|
    ensures r.Some? ==> r.value == v.items[index]
  {
    if index < |v.items| then Some(v.items[index]) else None
  }

  /** ordered_vector_insert: make room at `index` by moving every later
      element up one slot, then store `x` there. */
  function Insert<T>(v: Vec<T>, index: nat, x: T, allocOk: bool): (r: (Vec<T>, bool))
    requires v.Valid() && index <= |v.items|
    ensures r.0.Valid()
    ensures r.1 <==> (|v.items| < v.capacity || allocOk)
    ensures !r.1 ==> r.0 == v
    ensures r.1 ==> |r.0.items| == |v.items| + 1 && r.0.items[index] == x
    ensures r.1 ==> forall i :: 0 <= i < index ==> r.0.items[i] == v.items[i]
    ensures r.1 ==> forall i :: index <= i < |v.items| ==> r.0.items[i + 1] == v.items[i]
  {
    var items := v.items[..index] + [x] + v.items[index..];
    if |v.items| < v.capacity then (Vec(items, v.capacity), true)
    else if allocOk then (Vec(items, Grown(v.capacity)), true)
    else (v, false)
  }

  /** ordered_vector_erase_index: remove the element at `index`, moving
      every later element down one slot. */
  function EraseIndex<T>(v: Vec<T>, index: nat): (r: Vec<T>)
    requires v.Valid() && index < |v.items|
    ensures r.Valid() && r.capacity == v.capacity
    ensures |r.items| == |v.items| - 1
    ensures forall i :: 0 <= i < index ==> r.items[i] == v.items[i]
    ensures forall i :: index <= i < |r.items| ==> r.items[i] == v.items[i + 1]
  {
    Vec(v.items[..index] + v.items[index + 1..], v.capacity)
  }

  /** The unordered vector's erase: the last element is moved into the gap,
      so nothing else moves but the order is not kept. */
  function EraseUnordered<T>(v: Vec<T>, index: nat): (r: Vec<T>)
    requires v.Valid() && index < |v.items|
    ensures r.Valid() && r.capacity == v.capacity
    ensures |r.items| == |v.items| - 1
    ensures index < |r.items| ==> r.items[index] == v.items[|v.items| - 1]
    ensures forall i :: 0 <= i < |r.items| && i != index ==> r.items[i] == v.items[i]
  {
    var last := |v.items| - 1;
    if index == last then Vec(v.items[..last], v.capacity)
    else Vec(v.items[..last][index := v.items[last]], v.capacity)
  }

  /** ordered_vector_clear: forget the elements, keep the allocation. */
  function Clear<T>(v: Vec<T>): (r: Vec<T>)
    ensures r.Valid() && r.items == [] && r.capacity == v.capacity
  {
    Vec([], v.capacity)
  }

  /** ordered_vector_clear_free: forget the elements and free the
      allocation. */
  function ClearFree<T>(v: Vec<T>): (r: Vec<T>)
    ensures r.Valid() && r.items == [] && r.capacity == 0
  {
    Vec([], 0)
  }

  /** Popping right after a successful push returns the pushed element and
      the elements as they were. */
  lemma PushThenPop<T>(v: Vec<T>, x: T, allocOk: bool)
    requires v.Valid() && Push(v, x, allocOk).1
    ensures Pop(Push(v, x, allocOk).0).0 == Some(x)
    ensures Pop(Push(v, x, allocOk).0).1.items == v.items
  {
  }

  /** Erasing the element just inserted restores the elements. */
  lemma InsertThenErase<T>(v: Vec<T>, index: nat, x: T, allocOk: bool)
    requires v.Valid() && index <= |v.items| && Insert(v, index, x, allocOk).1
    ensures EraseIndex(Insert(v, index, x, allocOk).0, index).items == v.items
  {
    var w := Insert(v, index, x, allocOk).0;
    assert w.items == v.items[..index] + [x] + v.items[index..];
    assert w.items[..index] + w.items[index + 1..] == v.items;
  }

  /** The ordered erase keeps the remaining elements in their order: the
      result is the input with one position cut out. */
  lemma EraseIndexKeepsOrder<T>(v: Vec<T>, index: nat)
    requires v.Valid() && index < |v.items|
    ensures EraseIndex(v, index).items == v.items[..index] + v.items[index + 1..]
    ensures multiset(EraseIndex(v, index).items) == multiset(v.items) - multiset{v.items[index]}
  {
    var a, b := v.items[..index], v.items[index + 1..];
    assert v.items == a + [v.items[index]] + b;
  }

  /** The unordered erase removes exactly the erased element from the
      multiset of elements. */
  lemma EraseUnorderedIsRemoval<T>(v: Vec<T>, index: nat)
    requires v.Valid() && index < |v.items|
    ensures multiset(EraseUnordered(v, index).items) == multiset(v.items) - multiset{v.items[index]}
  {
    var last := |v.items| - 1;
    var init := v.items[..last];
    assert v.items == init + [v.items[last]];
    if index < last {
      var a, b := init[..index], init[index + 1..];
      assert init == a + [v.items[index]] + b;
      assert init[index := v.items[last]] == a + [v.items[last]] + b;
    }
  }

  /** The unordered erase changes the order: erasing the first of three
      elements leaves the third in front of the second. */
  lemma EraseUnorderedReorders()
    ensures EraseUnordered(Vec([1, 2, 3], 4), 0).items == [3, 2]
    ensures EraseIndex(Vec([1, 2, 3], 4), 0).items == [2, 3]
  {
  }

  /** Pushing each of `xs` in turn, every reallocation succeeding. */
  function PushAll<T>(v: Vec<T>, xs: seq<T>): (r: Vec<T>)
    requires v.Valid()
    ensures r.Valid()
    decreases |xs|
  {
    if xs == [] then v else PushAll(Push(v, xs[0], true).0, xs[1..])
  }

  /** Elements keep the order they were pushed in, and the capacity never
      falls below the count. */
  lemma {:induction false} PushAllAppends<T>(v: Vec<T>, xs: seq<T>)
    requires v.Valid()
    ensures PushAll(v, xs).items == v.items + xs
    ensures PushAll(v, xs).capacity >= v.capacity
    decreases |xs|
  {
    if xs != [] {
      var w := Push(v, xs[0], true).0;
      PushAllAppends(w, xs[1..]);
      assert w.items + xs[1..] == v.items + xs;
    }
  }
}
