/**
  * The growable primitive lists every column is built on (fastutil's
  * `IntArrayList`, `LongArrayList`, `ByteArrayList`, ...): a backing array
  * whose first `size` slots hold the list, grown on demand and trimmed to
  * `size` before a column is serialised.
  */
module Lists {

  /** The capacity a full list moves to: double, and at least one more slot. */
  function Grown(capacity: nat): (c: nat)
    ensures c > capacity
  {
    if capacity == 0 then 1 else 2 * capacity
  }

  class ArrayList<T(0)> {
    var elements: array<T>
    var size: nat
    ghost var Repr: set<object>

    ghost predicate Valid()
      reads this, Repr
    {
      Repr == {this, elements} && size <= elements.Length
    }

    /** The list itself: the occupied prefix of the backing array. */
    ghost function Contents(): seq<T>
      reads this, Repr
      requires Valid()
    {
      elements[..size]
    }

    /** `new XArrayList(initialCapacity)`: empty, with room for initialCapacity elements. */
    constructor (initialCapacity: nat)
      ensures Valid() && fresh(Repr)
      ensures Contents() == [] && elements.Length == initialCapacity
    {
      elements := new T[initialCapacity];
      size := 0;
      Repr := {this, elements};
    }

    /** `new XArrayList(a)`: a list holding a copy of the elements of a. */
    constructor FromArray(a: seq<T>)
      ensures Valid() && fresh(Repr)
      ensures Contents() == a && elements.Length == |a|
    {
      elements := new T[|a|](i requires 0 <= i < |a| => a[i]);
      size := |a|;
      Repr := {this, elements};
    }

    function Get(index: nat): (x: T)
      reads this, Repr
      requires Valid() && index < |Contents()|
      ensures x == Contents()[index]
    {
      elements[index]
    }

    /** `elements()[index] = x`: a write through to the backing array, inside the list. */
    method Store(index: nat, x: T)
      requires Valid() && index < size
      modifies elements
      ensures Valid() && Contents() == old(Contents())[index := x]
    {
      elements[index] := x;
    }

    /** Appends x, moving to a backing array of `Grown` capacity when the current one is full. */
    method Add(x: T)
      requires Valid()
      modifies Repr
      ensures Valid() && fresh(Repr - old(Repr))
      ensures Contents() == old(Contents()) + [x]
      ensures old(size) == old(elements.Length) ==> elements.Length == Grown(old(elements.Length))
      ensures old(size) < old(elements.Length) ==> elements == old(elements)
    {
      if size == elements.Length {
        var grown := new T[Grown(elements.Length)];
        forall i | 0 <= i < size {
          grown[i] := elements[i];
        }
        elements := grown;
        Repr := {this, elements};
      }
      elements[size] := x;
      size := size + 1;
    }

    /** `addElements(size(), xs)`: appends every element of xs, in order. */
    method AddAll(xs: seq<T>)
      requires Valid()
      modifies Repr
      ensures Valid() && fresh(Repr - old(Repr))
      ensures Contents() == old(Contents()) + xs
    {
      for i := 0 to |xs|
        invariant Valid() && fresh(Repr - old(Repr))
        invariant Contents() == old(Contents()) + xs[..i]
      {
        Add(xs[i]);
        assert xs[..i + 1] == xs[..i] + [xs[i]];
      }
    }

    /** Shrinks the backing array to exactly `size` slots; the list is unchanged. */
    method Trim()
      requires Valid()
      modifies Repr
      ensures Valid() && fresh(Repr - old(Repr))
      ensures Contents() == old(Contents()) && elements.Length == size
    {
      if size < elements.Length {
        var trimmed := new T[size];
        forall i | 0 <= i < size {
          trimmed[i] := elements[i];
        }
        elements := trimmed;
        Repr := {this, elements};
      }
    }
  }
}
