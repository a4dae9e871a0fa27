/** `queue`: an adapter over a `Vector` with two indices. Pushing appends to
    the vector and raises `rear`; popping only raises `front`, so popped slots
    are never reclaimed. The queued elements are the vector's slots from
    `front` up to `rear`. */
module QueueAdapter {
  import opened Outcome
  import opened VectorContainer

  class Queue<T(0)> {
    var storage: Vector<T>
    var front: nat
    var rear: nat

    /** The front index never passes the rear index, which is the vector's
        size. */
    ghost predicate Valid()
      reads this, storage
    {
      storage.Valid() && front <= rear == storage.size
    }

    /** The queued elements, oldest first. */
    ghost function Contents(): seq<T>
      requires Valid()
      reads this, storage, storage.buf
    {
      storage.Elements()[front..rear]
    }

    constructor()
      ensures Valid() && Contents() == [] && front == 0 && fresh(storage) && fresh(storage.buf)
    {
      storage := new Vector();
      front, rear := 0, 0;
    }

    /** The initializer-list constructor: each item appended, `rear` raised
        each time. */
    constructor FromList(items: seq<T>)
      ensures Valid() && Contents() == items && front == 0 && fresh(storage)
    {
      storage := new Vector();
      front, rear := 0, 0;
      new;
      for i := 0 to |items|
        invariant Valid() && fresh(storage) && fresh(storage.buf) && front == 0 && storage.Elements() == items[..i]
      {
        storage.PushBack(items[i]);
        rear := rear + 1;
      }
    }

    /** The copy constructor: a copy of the vector and both indices. */
    constructor Copy(q: Queue<T>)
      requires q.Valid()
      ensures Valid() && Contents() == q.Contents() && front == q.front && fresh(storage)
    {
      storage := new Vector.Copy(q.storage);
      front, rear := q.front, q.rear;
    }

    /** The move constructor: the vector's storage and both indices are taken
        over, and the other queue is left with no elements and zero indices. */
    constructor Move(q: Queue<T>)
      requires q.Valid()
      modifies q, q.storage
      ensures Valid() && Contents() == old(q.Contents())
      ensures q.Valid() && q.Contents() == [] && q.front == 0
    {
      storage := new Vector.Move(q.storage);
      front, rear := q.front, q.rear;
      new;
      q.front, q.rear := 0, 0;
    }

    /** Move assignment: unless both sides are the same queue, the vector is
        cleared, then its storage and both indices are taken over, and the
        other queue is left with no elements and zero indices. */
    method MoveAssign(q: Queue<T>)
      requires Valid() && q.Valid() && (q != this ==> q.storage != storage)
      modifies this, storage, q, q.storage
      ensures q == this ==> Valid() && Contents() == old(Contents())
      ensures q != this ==> Valid() && Contents() == old(q.Contents()) && storage == old(storage)
      ensures q != this ==> q.Valid() && q.Contents() == [] && q.front == 0 && q.storage == old(q.storage)
    {
      if this != q {
        storage.Clear();
        front := q.front;
        rear := q.rear;
        storage.MoveAssign(q.storage);
        q.front := 0;
        q.rear := 0;
      }
    }

    /** `empty()`: `front` has caught up with `rear`. */
    method Empty() returns (e: bool)
      requires Valid()
      ensures e <==> Contents() == []
    {
      e := front >= rear;
    }

    /** `size()`: `rear - front`. */
    method Size() returns (n: nat)
      requires Valid()
      ensures n == |Contents()| && n == rear - front
    {
      n := rear - front;
    }

    /** `pop()`: the oldest element is passed over by raising `front`; nothing
        on an empty queue. The vector is untouched. */
    method Pop()
      requires Valid()
      modifies this
      ensures Valid() && storage == old(storage) && rear == old(rear)
      ensures old(Contents()) == [] ==> Contents() == [] && front == old(front)
      ensures old(Contents()) != [] ==> Contents() == old(Contents())[1..] && front == old(front) + 1
    {
      if front < rear {
        front := front + 1;
      }
    }

    /** `push(value)`: appended to the vector, `rear` raised. */
    method Push(value: T)
      requires Valid()
      modifies this, storage, storage.buf
      ensures Valid() && storage == old(storage) && front == old(front) && rear == old(rear) + 1
      ensures storage.Elements() == old(storage.Elements()) + [value]
      ensures Contents() == old(Contents()) + [value]
      ensures storage.buf == old(storage.buf) || fresh(storage.buf)
    {
      storage.PushBack(value);
      rear := rear + 1;
    }

    /** `swap(other)`: the vectors exchange their storage and the queues their
        indices. */
    method Swap(other: Queue<T>)
      requires Valid() && other.Valid()
      modifies this, other, storage, other.storage
      ensures Valid() && other.Valid()
      ensures Contents() == old(other.Contents()) && other.Contents() == old(Contents())
      ensures front == old(other.front) && other.front == old(front)
    {
      storage.Swap(other.storage);
      front, other.front := other.front, front;
      rear, other.rear := other.rear, rear;
    }

    /** `front()`: the element at `front` through the vector's checked
        `operator[]`; `out_of_range` when empty. */
    method Front() returns (r: Result<T>)
      requires Valid()
      ensures r.Ok? <==> Contents() != []
      ensures r.Ok? ==> r.value == Contents()[0]
      ensures r.Fail? ==> r.error == OutOfRange
    {
      if front < rear {
        r := storage.At(front);
        return;
      }
      r := Fail(OutOfRange);
    }

    /** `insert_many_back(args...)`: the arguments are pushed from the first to
        the last, one per recursive step. */
    method InsertManyBack(args: seq<T>)
      requires Valid()
      modifies this, storage, storage.buf
      ensures Valid() && storage == old(storage) && front == old(front)
      ensures Contents() == old(Contents()) + args
      ensures storage.buf == old(storage.buf) || fresh(storage.buf)
      decreases |args|
    {
      if args != [] {
        Push(args[0]);
        InsertManyBack(args[1..]);
        assert [args[0]] + args[1..] == args;
      }
    }
  }

  /** Elements leave in the order they came: a push leaves the oldest element
      at the front, and a value pushed onto an empty queue is at the front. */
  method FifoFront<T(0)>(q: Queue<T>, value: T) returns (first: Result<T>)
    requires q.Valid()
    modifies q, q.storage, q.storage.buf
    ensures q.Valid() && q.Contents() == old(q.Contents()) + [value]
    ensures old(q.Contents()) == [] ==> first == Ok(value)
    ensures old(q.Contents()) != [] ==> first == Ok(old(q.Contents())[0])
  {
    q.Push(value);
    first := q.Front();
  }
}
