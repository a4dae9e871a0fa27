/** `Array<T, N>`: a fixed number `N` of elements held in place. The size is
    the array's length; elements nobody has written hold the value-initialised
    element `T()`, passed in as `zero`. */
module ArrayContainer {
  import opened Outcome

  class FixedArray<T> {
    const elements: array<T>

    ghost function Contents(): seq<T>
      reads elements
    {
      elements[..]
    }

    /** `Array()`: `n` value-initialised elements. */
    constructor(n: nat, zero: T)
      ensures elements.Length == n && Contents() == seq(n, _ => zero) && fresh(elements)
    {
      elements := new T[n](_ => zero);
    }

    /** The copy and move constructors: the other array's elements copied in
        order. */
    constructor Copy(other: FixedArray<T>, zero: T)
      ensures elements.Length == other.elements.Length && Contents() == other.Contents() && fresh(elements)
    {
      elements := new T[other.elements.Length](_ => zero);
      new;
      for i := 0 to elements.Length
        invariant elements[..i] == other.elements[..i]
      {
        elements[i] := other.elements[i];
      }
    }

    /** Copy and move assignment: the other array's elements copied in order
        over this array's. */
    method Assign(other: FixedArray<T>)
      requires other.elements.Length == elements.Length
      modifies elements
      ensures Contents() == old(other.Contents())
    {
      var source := other.elements[..];
      for i := 0 to elements.Length
        invariant elements[..i] == source[..i]
      {
        elements[i] := source[i];
      }
    }

    /** `at(pos)`: the element at `pos`, or `out_of_range` from `N` on. */
    method At(pos: nat) returns (r: Result<T>)
      ensures pos < elements.Length <==> r.Ok?
      ensures r.Ok? ==> r.value == Contents()[pos]
      ensures r.Fail? ==> r.error == OutOfRange
    {
      if pos >= elements.Length {
        return Fail(OutOfRange);
      }
      r := Ok(elements[pos]);
    }

    /** `operator[](pos)`: unchecked, so `pos` must be below `N`. */
    method Subscript(pos: nat) returns (r: T)
      requires pos < elements.Length
      ensures r == Contents()[pos]
    {
      r := elements[pos];
    }

    /** `front()`: element 0; `out_of_range` when `N` is zero. */
    method Front() returns (r: Result<T>)
      ensures r.Ok? <==> elements.Length > 0
      ensures r.Ok? ==> r.value == Contents()[0]
      ensures r.Fail? ==> r.error == OutOfRange
    {
      if elements.Length == 0 {
        return Fail(OutOfRange);
      }
      r := Ok(elements[0]);
    }

    /** `back()`: element `N - 1`; `out_of_range` when `N` is zero. */
    method Back() returns (r: Result<T>)
      ensures r.Ok? <==> elements.Length > 0
      ensures r.Ok? ==> r.value == Contents()[elements.Length - 1]
      ensures r.Fail? ==> r.error == OutOfRange
    {
      if elements.Length == 0 {
        return Fail(OutOfRange);
      }
      r := Ok(elements[elements.Length - 1]);
    }

    /** `empty()`: `N` is zero. */
    method Empty() returns (e: bool)
      ensures e <==> Contents() == []
    {
      e := elements.Length == 0;
    }

    /** `size()`, and `max_size()`, which returns the same field: `N`. */
    method Size() returns (n: nat)
      ensures n == |Contents()| && n == elements.Length
    {
      n := elements.Length;
    }

    /** `fill(value)`: every element becomes `value`. */
    method Fill(value: T)
      modifies elements
      ensures Contents() == seq(elements.Length, _ => value)
    {
      for i := 0 to elements.Length
        invariant forall j :: 0 <= j < i ==> elements[j] == value
      {
        elements[i] := value;
      }
    }

    /** `swap(other)`: the two arrays exchange their elements, through a
        temporary copy of this one. */
    method Swap(other: FixedArray<T>)
      requires other.elements.Length == elements.Length
      modifies elements, other.elements
      ensures Contents() == old(other.Contents()) && other.Contents() == old(Contents())
    {
      var mine, theirs := elements[..], other.elements[..];
      for i := 0 to elements.Length
        invariant elements == other.elements ==> mine == theirs
        invariant forall j :: 0 <= j < i ==> elements[j] == theirs[j] && other.elements[j] == mine[j]
        invariant forall j :: i <= j < elements.Length ==> elements[j] == mine[j] && other.elements[j] == theirs[j]
      {
        elements[i] := theirs[i];
        other.elements[i] := mine[i];
      }
    }
  }

  /** The initializer-list constructor: more than `n` items throw
      `out_of_range`; otherwise the items fill the front in order and the rest
      stay value-initialised. */
  method FromList<T>(n: nat, zero: T, items: seq<T>) returns (r: Result<FixedArray<T>>)
    ensures r.Fail? <==> |items| > n
    ensures r.Fail? ==> r.error == OutOfRange
    ensures r.Ok? ==> fresh(r.value.elements) && r.value.elements.Length == n &&
                      r.value.Contents() == items + seq(n - |items|, _ => zero)
  {
    var a := new FixedArray(n, zero);
    if n < |items| {
      return Fail(OutOfRange);
    }
    for i := 0 to |items|
      invariant a.elements[..i] == items[..i]
      invariant forall j :: i <= j < n ==> a.elements[j] == zero
    {
      a.elements[i] := items[i];
    }
    assert a.Contents() == items + seq(n - |items|, _ => zero);
    r := Ok(a);
  }
}
