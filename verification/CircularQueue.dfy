/** The fixed-capacity circular queue that drives the breadth-first pass. */
module CircularQueue {
  import opened FixedWidth

  /** The array slot `i` places after `front`, wrapping at most once. */
  function Slot(front: int, i: int, capacity: nat): (r: int)
    requires 0 <= front < capacity && -1 <= i <= capacity
    ensures 0 <= r < capacity
  {
    if front + i < 0 then capacity - 1
    else if front + i < capacity then front + i
    else front + i - capacity
  }

  lemma NextSlot(x: int, capacity: nat)
    requires 0 <= x < capacity
    ensures (x + 1) % capacity == if x + 1 == capacity then 0 else x + 1
  {
  }

  class Queue {
    var front: int
    var rear: int
    var size: int
    const capacity: nat
    const buffer: array<int>

    ghost predicate Valid()
      reads this
    {
      && buffer.Length == capacity
      && 0 <= size <= capacity
      && (capacity > 0 ==> 0 <= front < capacity && rear == Slot(front, size - 1, capacity))
    }

    /** The queued items, oldest first. */
    ghost function Contents(): (s: seq<int>)
      requires Valid()
      reads this, buffer
      ensures |s| == size
    {
      seq(size, i requires 0 <= i < size && Valid() reads this, buffer => buffer[Slot(front, i, capacity)])
    }

    constructor (capacity: nat)
      ensures Valid() && fresh(buffer) && this.capacity == capacity && Contents() == []
    {
      this.capacity := capacity;
      front, size := 0, 0;
      rear := capacity - 1;
      buffer := new int[capacity];
    }

    method IsFull() returns (full: bool)
      requires Valid()
      ensures full <==> |Contents()| == capacity
    {
      full := size == capacity;
    }

    method IsEmpty() returns (empty: bool)
      requires Valid()
      ensures empty <==> Contents() == []
    {
      empty := size == 0;
    }

    /** A full queue drops the item silently. */
    method Enqueue(item: int)
      requires Valid()
      modifies this, buffer
      ensures Valid()
      ensures Contents() == if |old(Contents())| == capacity then old(Contents()) else old(Contents()) + [item]
    {
      var full := IsFull();
      if full {
        return;
      }
      NextSlot(rear, capacity);
      rear := (rear + 1) % capacity;
      buffer[rear] := item;
      size := size + 1;
    }

    /** An empty queue answers INT_MIN. */
    method Dequeue() returns (item: int)
      requires Valid()
      modifies this
      ensures Valid()
      ensures old(Contents()) == [] ==> item == INT_MIN && Contents() == []
      ensures old(Contents()) != [] ==> old(Contents()) == [item] + Contents()
    {
      var empty := IsEmpty();
      if empty {
        return INT_MIN;
      }
      item := buffer[front];
      NextSlot(front, capacity);
      front := (front + 1) % capacity;
      size := size - 1;
    }

    method Front() returns (item: int)
      requires Valid()
      ensures item == if Contents() == [] then INT_MIN else Contents()[0]
    {
      var empty := IsEmpty();
      item := if empty then INT_MIN else buffer[front];
    }

    method Rear() returns (item: int)
      requires Valid()
      ensures item == if Contents() == [] then INT_MIN else Contents()[|Contents()| - 1]
    {
      var empty := IsEmpty();
      item := if empty then INT_MIN else buffer[rear];
    }
  }
}
