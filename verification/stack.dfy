/** `stack`: an adapter over a `Vector` whose last element is the top. */
module StackAdapter {
  import opened Outcome
  import opened VectorContainer

  class Stack<T(0)> {
    var st: Vector<T>

    ghost predicate Valid()
      reads this, st
    {
      st.Valid()
    }

    /** The elements from the bottom to the top. */
    ghost function Contents(): seq<T>
      requires Valid()
      reads this, st, st.buf
    {
      st.Elements()
    }

    constructor()
      ensures Valid() && Contents() == [] && fresh(st) && fresh(st.buf)
    {
      st := new Vector();
    }

    /** The initializer-list constructor: the vector built from the items, so
        the last item is the top. */
    constructor FromList(items: seq<T>)
      ensures Valid() && Contents() == items && fresh(st) && fresh(st.buf)
      ensures items != [] ==> Contents()[|Contents()| - 1] == items[|items| - 1]
    {
      st := new Vector.FromList(items);
    }

    /** `top()`: the vector's `back()`, so `out_of_range` when empty. */
    method Top() returns (r: Result<T>)
      requires Valid()
      ensures r.Ok? <==> Contents() != []
      ensures r.Ok? ==> r.value == Contents()[|Contents()| - 1]
      ensures r.Fail? ==> r.error == OutOfRange
    {
      r := st.Back();
    }

    method Empty() returns (e: bool)
      requires Valid()
      ensures e <==> Contents() == []
    {
      e := st.Empty();
    }

    method Size() returns (n: nat)
      requires Valid()
      ensures n == |Contents()|
    {
      n := st.Size();
    }

    /** `push(value)`: the value becomes the top. */
    method Push(value: T)
      requires Valid()
      modifies st, st.buf
      ensures Valid() && Contents() == old(Contents()) + [value]
      ensures st.buf == old(st.buf) || fresh(st.buf)
    {
      st.PushBack(value);
    }

    /** `pop()`: the top is removed; nothing on an empty stack. */
    method Pop()
      requires Valid()
      modifies st
      ensures Valid()
      ensures old(Contents()) == [] ==> Contents() == []
      ensures old(Contents()) != [] ==> Contents() == old(Contents())[..|old(Contents())| - 1]
    {
      st.PopBack();
    }

    /** `swap(other)`: the two stacks' vectors exchange their storage. */
    method Swap(other: Stack<T>)
      requires Valid() && other.Valid()
      modifies st, other.st
      ensures Valid() && other.Valid()
      ensures Contents() == old(other.Contents()) && other.Contents() == old(Contents())
    {
      st.Swap(other.st);
    }

    /** `insert_many_front(args...)`: the arguments are pushed from the first
        to the last, one per recursive step, so the last ends on top. */
    method InsertManyFront(args: seq<T>)
      requires Valid()
      modifies st, st.buf
      ensures Valid() && Contents() == old(Contents()) + args
      ensures st.buf == old(st.buf) || fresh(st.buf)
      decreases |args|
    {
      if args != [] {
        Push(args[0]);
        InsertManyFront(args[1..]);
        assert [args[0]] + args[1..] == args;
      }
    }
  }

  /** Pushing and then popping gives the stack back: the last pushed element
      is the first to come off. */
  method PushThenPop<T(0)>(s: Stack<T>, value: T) returns (top: Result<T>)
    requires s.Valid()
    modifies s.st, s.st.buf
    ensures s.Valid() && top == Ok(value) && s.Contents() == old(s.Contents())
  {
    s.Push(value);
    top := s.Top();
    s.Pop();
  }
}
