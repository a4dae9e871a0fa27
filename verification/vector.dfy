/** `Vector`: a growable buffer. The elements are the first `size` slots of
    the buffer and the capacity is the buffer's length; a full buffer is
    replaced by one of twice the length (of length one when it was empty). */
module VectorContainer {
  import opened Outcome
  import opened SequenceSpec

  /** The capacity a full buffer grows to. */
  function Grown(capacity: nat): (r: nat)
    ensures r > capacity && r >= 1
    ensures capacity > 0 ==> r == 2 * capacity
  {
    if capacity == 0 then 1 else capacity * 2
  }

  class Vector<T(0)> {
    var buf: array<T>
    var size: nat

    /** The element count never exceeds the capacity. */
    ghost predicate Valid()
      reads this
    {
      size <= buf.Length
    }

    ghost function Elements(): seq<T>
      requires Valid()
      reads this, buf
    {
      buf[..size]
    }

    /** `Vector()`: no elements and no storage. */
    constructor()
      ensures Valid() && Elements() == [] && buf.Length == 0 && fresh(buf)
    {
      buf := new T[0];
      size := 0;
    }

    /** `Vector(n)`: `n` elements of a fresh buffer of capacity `n`; their
        values are whatever the buffer was created with. */
    constructor Sized(n: nat)
      ensures Valid() && |Elements()| == n && buf.Length == n && fresh(buf)
    {
      buf := new T[n];
      size := n;
    }

    /** The initializer-list constructor: reserve room for the items, then
        append them in order. */
    constructor FromList(items: seq<T>)
      ensures Valid() && Elements() == items && buf.Length == |items| && fresh(buf)
    {
      buf := new T[0];
      size := 0;
      new;
      Reserve(|items|);
      for i := 0 to |items|
        invariant Valid() && Elements() == items[..i] && buf.Length == |items| && fresh(buf)
      {
        PushBack(items[i]);
      }
    }

    /** The copy constructor: reserve room for the other's elements, then
        append them in order. */
    constructor Copy(other: Vector<T>)
      requires other.Valid()
      ensures Valid() && Elements() == other.Elements() && buf.Length == other.size && fresh(buf)
    {
      buf := new T[0];
      size := 0;
      new;
      Reserve(other.size);
      for i := 0 to other.size
        invariant Valid() && Elements() == other.buf[..i] && buf.Length == other.size && fresh(buf)
      {
        PushBack(other.buf[i]);
      }
    }

    /** The move constructor: the storage is taken over and the other vector
        is left with no elements and no storage. */
    constructor Move(other: Vector<T>)
      requires other.Valid()
      modifies other
      ensures Valid() && buf == old(other.buf) && size == old(other.size)
      ensures other.Valid() && other.size == 0 && other.buf.Length == 0
    {
      buf := other.buf;
      size := other.size;
      new;
      other.buf := new T[0];
      other.size := 0;
    }

    /** Move assignment: unless both sides are the same vector, the storage is
        taken over and the other vector is left with no elements and no
        storage. */
    method MoveAssign(other: Vector<T>)
      requires Valid() && other.Valid()
      modifies this, other
      ensures other == this ==> buf == old(buf) && size == old(size)
      ensures other != this ==> buf == old(other.buf) && size == old(other.size) &&
                                other.size == 0 && other.buf.Length == 0
      ensures Valid() && other.Valid()
    {
      if this != other {
        buf := other.buf;
        size := other.size;
        other.buf := new T[0];
        other.size := 0;
      }
    }

    /** `at(pos)`, and `operator[](pos)`, which performs the same check: the
        element at `pos`, or `out_of_range` from `pos` on. */
    method At(pos: nat) returns (r: Result<T>)
      requires Valid()
      ensures pos < |Elements()| <==> r.Ok?
      ensures r.Ok? ==> r.value == Elements()[pos]
      ensures r.Fail? ==> r.error == OutOfRange
    {
      if pos >= size {
        return Fail(OutOfRange);
      }
      r := Ok(buf[pos]);
    }

    /** `front()`: the first element; `out_of_range` when empty. */
    method Front() returns (r: Result<T>)
      requires Valid()
      ensures r.Ok? <==> Elements() != []
      ensures r.Ok? ==> r.value == Elements()[0]
      ensures r.Fail? ==> r.error == OutOfRange
    {
      if size == 0 {
        return Fail(OutOfRange);
      }
      r := Ok(buf[0]);
    }

    /** `back()`: the last element; `out_of_range` when empty. */
    method Back() returns (r: Result<T>)
      requires Valid()
      ensures r.Ok? <==> Elements() != []
      ensures r.Ok? ==> r.value == Elements()[|Elements()| - 1]
      ensures r.Fail? ==> r.error == OutOfRange
    {
      if size == 0 {
        return Fail(OutOfRange);
      }
      r := Ok(buf[size - 1]);
    }

    method Size() returns (n: nat)
      requires Valid()
      ensures n == |Elements()|
    {
      n := size;
    }

    method Empty() returns (e: bool)
      requires Valid()
      ensures e <==> Elements() == []
    {
      e := size == 0;
    }

    method Capacity() returns (c: nat)
      requires Valid()
      ensures c == buf.Length && |Elements()| <= c
    {
      c := buf.Length;
    }

    /** `reserve(n)`: a larger request moves the elements into a fresh buffer
        of exactly `n` slots; a request that is not larger changes nothing. */
    method Reserve(n: nat)
      requires Valid()
      modifies this
      ensures Valid() && Elements() == old(Elements()) && size == old(size)
      ensures n > old(buf.Length) ==> buf.Length == n && fresh(buf)
      ensures n <= old(buf.Length) ==> buf == old(buf)
    {
      if n > buf.Length {
        var larger := new T[n];
        for i := 0 to size
          modifies larger
          invariant larger[..i] == buf[..i]
        {
          larger[i] := buf[i];
        }
        buf := larger;
      }
    }

    /** `shrink_to_fit()`: spare capacity is released by moving the elements
        into a fresh buffer of exactly `size` slots. */
    method ShrinkToFit()
      requires Valid()
      modifies this
      ensures Valid() && Elements() == old(Elements()) && size == old(size)
      ensures buf.Length == size
      ensures old(size) < old(buf.Length) ==> fresh(buf)
      ensures old(size) == old(buf.Length) ==> buf == old(buf)
    {
      if size < buf.Length {
        var exact := new T[size];
        for i := 0 to size
          modifies exact
          invariant exact[..i] == buf[..i]
        {
          exact[i] := buf[i];
        }
        buf := exact;
      }
    }

    /** `clear()`: no elements; the storage is kept. */
    method Clear()
      requires Valid()
      modifies this
      ensures Valid() && Elements() == [] && buf == old(buf)
    {
      size := 0;
    }

    /** `insert(pos, value)`, with the iterator given as its offset from
        `begin()`: an offset outside `0..size` (a negative one wraps around in
        `size_t`) throws `out_of_range` and changes nothing; otherwise a full
        buffer grows first, the suffix shifts one slot right, the value lands
        at the offset, and the offset of the new element is returned. */
    method Insert(pos: int, value: T) returns (r: Result<nat>)
      requires Valid()
      modifies this, buf
      ensures Valid()
      ensures r.Ok? <==> 0 <= pos <= old(size)
      ensures r.Fail? ==> r.error == OutOfRange && buf == old(buf) && size == old(size) &&
                          Elements() == old(Elements())
      ensures r.Ok? ==> r.value == pos && Elements() == Inserted(old(Elements()), pos, value)
      ensures r.Ok? && old(size) == old(buf.Length) ==> buf.Length == Grown(old(buf.Length)) && fresh(buf)
      ensures r.Ok? && old(size) < old(buf.Length) ==> buf == old(buf)
    {
      if pos < 0 || pos > size {
        return Fail(OutOfRange);
      }
      if size == buf.Length {
        Reserve(Grown(buf.Length));
      }
      ghost var before := buf[..size];
      var i := size;
      while i > pos
        modifies buf
        invariant pos <= i <= size < buf.Length
        invariant forall k :: 0 <= k < i ==> buf[k] == before[k]
        invariant forall k :: i < k <= size ==> buf[k] == before[k - 1]
      {
        buf[i] := buf[i - 1];
        i := i - 1;
      }
      buf[pos] := value;
      size := size + 1;
      InsertedAt(buf[..size], before, pos, value);
      r := Ok(pos);
    }

    /** `erase(pos)`, with the iterator given as its offset from `begin()`: an
        offset outside `0..size - 1` throws `out_of_range` and changes nothing;
        otherwise the suffix after it shifts one slot left over it. The
        storage is kept. */
    method Erase(pos: int) returns (r: Result<()>)
      requires Valid()
      modifies this, buf
      ensures Valid() && buf == old(buf)
      ensures r.Ok? <==> 0 <= pos < old(size)
      ensures r.Fail? ==> r.error == OutOfRange && size == old(size) && Elements() == old(Elements())
      ensures r.Ok? ==> Elements() == Erased(old(Elements()), pos)
    {
      if pos < 0 || pos >= size {
        return Fail(OutOfRange);
      }
      ghost var before := buf[..size];
      var i := pos;
      while i != size - 1
        modifies buf
        invariant pos <= i <= size - 1
        invariant forall k :: 0 <= k < pos ==> buf[k] == before[k]
        invariant forall k :: pos <= k < i ==> buf[k] == before[k + 1]
        invariant forall k :: i <= k < size ==> buf[k] == before[k]
        decreases size - 1 - i
      {
        buf[i] := buf[i + 1];
        i := i + 1;
      }
      size := size - 1;
      ErasedAt(buf[..size], before, pos);
      r := Ok(());
    }

    /** `push_back(value)`: a full buffer grows first; the value lands after
        the last element. */
    method PushBack(value: T)
      requires Valid()
      modifies this, buf
      ensures Valid() && Elements() == old(Elements()) + [value]
      ensures old(size) == old(buf.Length) ==> buf.Length == Grown(old(buf.Length)) && fresh(buf)
      ensures old(size) < old(buf.Length) ==> buf == old(buf)
    {
      if size == buf.Length {
        Reserve(Grown(buf.Length));
      }
      buf[size] := value;
      size := size + 1;
    }

    /** `pop_back()`: drops the last element; nothing when empty. */
    method PopBack()
      requires Valid()
      modifies this
      ensures Valid() && buf == old(buf)
      ensures old(Elements()) == [] ==> Elements() == []
      ensures old(Elements()) != [] ==> Elements() == old(Elements())[..old(size) - 1]
    {
      if size > 0 {
        size := size - 1;
      }
    }

    /** `swap(other)`: the two vectors exchange storage, size and capacity. */
    method Swap(other: Vector<T>)
      modifies this, other
      ensures buf == old(other.buf) && size == old(other.size)
      ensures other.buf == old(buf) && other.size == old(size)
    {
      buf, other.buf := other.buf, buf;
      size, other.size := other.size, size;
    }

    /** `insert_many(pos, args...)`: each argument is inserted in turn just
        after the previous one. With no arguments nothing is checked and the
        offset comes back as given; otherwise an offset outside `0..size`
        throws on the first insertion, before any change, and the result is
        the offset just past the inserted run. */
    method InsertMany(pos: int, args: seq<T>) returns (r: Result<int>)
      requires Valid()
      modifies this, buf
      ensures Valid()
      ensures args == [] ==> r == Ok(pos) && Elements() == old(Elements())
      ensures args != [] ==> (r.Ok? <==> 0 <= pos <= old(size))
      ensures r.Fail? ==> r.error == OutOfRange && Elements() == old(Elements())
      ensures args != [] && r.Ok? ==> r.value == pos + |args| && Elements() == Spliced(old(Elements()), pos, args)
      ensures |Elements()| <= buf.Length && old(buf.Length) <= buf.Length
    {
      if args != [] && (pos < 0 || pos > size) {
        var _ := Insert(pos, args[0]);
        return Fail(OutOfRange);
      }
      ghost var before := Elements();
      var at := pos;
      for i := 0 to |args|
        invariant Valid() && at == pos + i
        invariant 0 <= pos <= |before| || args == []
        invariant args != [] ==> Elements() == Spliced(before, pos, args[..i])
        invariant args == [] ==> Elements() == before
        invariant old(buf.Length) <= buf.Length && (buf == old(buf) || fresh(buf))
      {
        SplicedStep(before, pos, args[..i], args[i]);
        assert args[..i + 1] == args[..i] + [args[i]];
        var placed := Insert(at, args[i]);
        at := placed.value + 1;
      }
      assert args[..|args|] == args;
      r := Ok(at);
    }

    /** `insert_many_back(args...)`: the arguments are appended in order. */
    method InsertManyBack(args: seq<T>)
      requires Valid()
      modifies this, buf
      ensures Valid() && Elements() == old(Elements()) + args
    {
      var _ := InsertMany(size, args);
      assert Spliced(old(Elements()), old(size), args) == old(Elements()) + args;
    }
  }
}
