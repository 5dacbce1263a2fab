/** base/queue.h: a FIFO in a growing array, whose front slides along it. */
module Queue {

  const QUEUE_INIT_SIZE := 16

  class Queue<T(0)> {
    var ptr: array<T>
    var size: nat
    var maxsize: nat
    var offset: nat

    ghost predicate Valid()
      reads this
    {
      ptr.Length == maxsize && offset + size <= maxsize && (offset < maxsize || maxsize == 0)
    }

    ghost function Contents(): seq<T>
      requires Valid()
      reads this, ptr
    {
      ptr[offset..offset + size]
    }

    /** queue_init; a zeroed queue is one of no capacity. */
    constructor (capacity: nat)
      ensures Valid() && fresh(ptr) && Contents() == []
    {
      ptr := new T[capacity];
      size, maxsize, offset := 0, capacity, 0;
    }

    method Empty() returns (empty: bool)
      requires Valid()
      ensures empty <==> Contents() == []
    {
      empty := size == 0;
    }

    method Front() returns (elem: T)
      requires Valid() && Contents() != []
      ensures elem == Contents()[0]
    {
      elem := ptr[offset];
    }

    /** A write through the pointer that queue_front returns. */
    method SetFront(elem: T)
      requires Valid() && Contents() != []
      modifies ptr
      ensures Valid() && Contents() == [elem] + old(Contents())[1..]
    {
      ptr[offset] := elem;
    }

    /** queue_double_resize, when the queue is full. */
    method DoubleResize()
      requires Valid() && size == maxsize
      modifies this`ptr, this`maxsize
      ensures Valid() && fresh(ptr) && size < maxsize && offset + size < maxsize && Contents() == old(Contents())
    {
      var n := maxsize * 2;
      if n == 0 { n := QUEUE_INIT_SIZE; }
      var copy := new T[n];
      for i := 0 to maxsize
        modifies copy
        invariant forall k :: 0 <= k < i ==> copy[k] == ptr[k]
      {
        copy[i] := ptr[i];
      }
      ptr, maxsize := copy, n;
    }

    /** The memmove of queue_push_back. */
    method SlideToFront()
      requires Valid() && offset + size == maxsize && size < maxsize
      modifies this`offset, ptr
      ensures Valid() && offset == 0 && Contents() == old(Contents())
    {
      for i := 0 to size
        modifies ptr
        invariant forall k :: 0 <= k < i ==> ptr[k] == old(ptr[offset + k])
        invariant forall k :: i <= k < ptr.Length ==> ptr[k] == old(ptr[k])
      {
        ptr[i] := ptr[offset + i];
      }
      offset := 0;
    }

    /** queue_push_back */
    method PushBack(elem: T)
      requires Valid()
      modifies this, ptr
      ensures Valid() && Contents() == old(Contents()) + [elem] && (ptr == old(ptr) || fresh(ptr))
    {
      if size == maxsize {
        DoubleResize();
      } else if offset + size == maxsize {
        SlideToFront();
      }
      ptr[offset + size] := elem;
      size := size + 1;
    }

    /** queue_pop_front */
    method PopFront()
      requires Valid() && Contents() != []
      modifies this`size, this`offset
      ensures Valid() && Contents() == old(Contents())[1..]
    {
      assert size > 0;
      size := size - 1;
      offset := offset + 1;
      if offset == maxsize { offset := 0; }
    }
  }
}
