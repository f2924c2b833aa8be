/** Collection<T>: a resizable array.  Live elements occupy the dense prefix
    [0, count) of the buffer `items`; the capacity is the buffer's length. */
module Collections {
  import opened Outcomes
  import SeqOps
  import Rendering

  /** Capacity of a collection constructed with no elements. */
  const InitialCapacity: nat := 16

  /** The capacity after growing a buffer of `capacity` slots so that it
      holds `needed` elements: doubled until it is large enough. */
  function GrownCapacity(capacity: nat, needed: nat): (r: nat)
    requires capacity > 0
    ensures r >= capacity && r >= needed
    ensures needed <= capacity ==> r == capacity
    ensures needed > capacity ==> r < 2 * needed
    decreases needed - capacity
  {
    if needed <= capacity then capacity else GrownCapacity(2 * capacity, needed)
  }

  class Collection<T(0)> {
    /** The live elements, in order (the public view). */
    ghost var Elements: seq<T>
    /** The objects of the implementation. */
    ghost var Repr: set<object>

    var items: array<T>
    var count: nat

    ghost predicate Valid()
      reads this, Repr
      ensures Valid() ==> this in Repr
    {
      Repr == {this, items} &&
      0 < items.Length &&
      count <= items.Length &&
      Elements == items[..count]
    }

    /** new Collection<T>(params T[] initial); with no arguments the empty
        collection of capacity 16. */
    constructor (initial: seq<T>)
      ensures Valid() && fresh(Repr)
      ensures Elements == initial
      ensures Capacity() == GrownCapacity(InitialCapacity, |initial|)
      ensures initial == [] ==> Capacity() == InitialCapacity
    {
      items := new T[InitialCapacity];
      count := 0;
      Elements := [];
      new;
      Repr := {this, items};
      AddRange(initial);
    }

    /** Number of live elements. */
    function Count(): (n: nat)
      reads this, Repr
      requires Valid()
      ensures n == |Elements|
    {
      count
    }

    /** Size of the buffer; never below the number of live elements. */
    function Capacity(): (c: nat)
      reads this, Repr
      requires Valid()
      ensures c > 0 && c >= |Elements|
    {
      items.Length
    }

    /** Grows the buffer, copying the live elements, when fewer than `needed`
        slots are available. */
    method EnsureCapacity(needed: nat)
      requires Valid()
      modifies Repr
      ensures Valid() && fresh(Repr - old(Repr))
      ensures Elements == old(Elements)
      ensures Capacity() == GrownCapacity(old(Capacity()), needed)
    {
      var capacity := GrownCapacity(items.Length, needed);
      if capacity > items.Length {
        var grown := new T[capacity];
        var i := 0;
        while i < count
          modifies grown
          invariant 0 <= i <= count
          invariant forall j :: 0 <= j < i ==> grown[j] == items[j]
        {
          grown[i] := items[i];
          i := i + 1;
        }
        assert grown[..count] == items[..count];
        items := grown;
        Repr := {this, items};
      }
    }

    /** Appends `x` after the last element. */
    method Add(x: T)
      requires Valid()
      modifies Repr
      ensures Valid() && fresh(Repr - old(Repr))
      ensures Elements == old(Elements) + [x]
      ensures Capacity() == GrownCapacity(old(Capacity()), old(|Elements|) + 1)
    {
      EnsureCapacity(count + 1);
      items[count] := x;
      count := count + 1;
      Elements := Elements + [x];
    }

    /** Appends all of `xs`, in order, after the last element. */
    method AddRange(xs: seq<T>)
      requires Valid()
      modifies Repr
      ensures Valid() && fresh(Repr - old(Repr))
      ensures Elements == old(Elements) + xs
      ensures Capacity() == GrownCapacity(old(Capacity()), old(|Elements|) + |xs|)
    {
      EnsureCapacity(count + |xs|);
      var j := 0;
      while j < |xs|
        modifies items
        invariant 0 <= j <= |xs|
        invariant forall k :: 0 <= k < count ==> items[k] == Elements[k]
        invariant forall k :: 0 <= k < j ==> items[count + k] == xs[k]
      {
        items[count + j] := xs[j];
        j := j + 1;
      }
      Elements := Elements + xs;
      count := count + |xs|;
      assert Elements == items[..count];
    }

    /** The indexer's getter: the element at `index`, or IndexOutOfRange. */
    function Get(index: int): (r: Result<T>)
      reads this, Repr
      requires Valid()
      ensures 0 <= index < |Elements| ==> r == Ok(Elements[index])
      ensures !(0 <= index < |Elements|) ==> r == Err(IndexOutOfRange)
    {
      if 0 <= index < count then Ok(items[index]) else Err(IndexOutOfRange)
    }

    /** The indexer's setter: replaces the element at `index`; on an index
        out of range nothing changes. */
    method Set(index: int, x: T) returns (r: Outcome)
      requires Valid()
      modifies Repr
      ensures Valid() && Repr == old(Repr) && Capacity() == old(Capacity())
      ensures 0 <= index < old(|Elements|) ==> r == Pass && Elements == old(Elements)[index := x]
      ensures !(0 <= index < old(|Elements|)) ==> r == Fail(IndexOutOfRange) && Elements == old(Elements)
    {
      if !(0 <= index < count) {
        return Fail(IndexOutOfRange);
      }
      items[index] := x;
      Elements := Elements[index := x];
      r := Pass;
    }

    /** Inserts `x` at `index` (0 <= index <= Count; Count appends), shifting
        the elements from `index` on one place to the right. */
    method InsertAt(index: int, x: T) returns (r: Outcome)
      requires Valid()
      modifies Repr
      ensures Valid() && fresh(Repr - old(Repr))
      ensures 0 <= index <= old(|Elements|) ==>
        r == Pass && Elements == SeqOps.Inserted(old(Elements), index, x) &&
        Capacity() == GrownCapacity(old(Capacity()), old(|Elements|) + 1)
      ensures !(0 <= index <= old(|Elements|)) ==>
        r == Fail(IndexOutOfRange) && Elements == old(Elements) && Capacity() == old(Capacity())
    {
      if !(0 <= index <= count) {
        return Fail(IndexOutOfRange);
      }
      EnsureCapacity(count + 1);
      var k := count;
      while k > index
        modifies items
        invariant index <= k <= count
        invariant forall j :: 0 <= j < k ==> items[j] == Elements[j]
        invariant forall j :: k < j <= count ==> items[j] == Elements[j - 1]
        decreases k
      {
        items[k] := items[k - 1];
        k := k - 1;
      }
      items[index] := x;
      Elements := SeqOps.Inserted(Elements, index, x);
      count := count + 1;
      assert Elements == items[..count];
      r := Pass;
    }

    /** Removes and returns the element at `index`, shifting the later
        elements one place to the left; the capacity is kept. */
    method RemoveAt(index: int) returns (r: Result<T>)
      requires Valid()
      modifies Repr
      ensures Valid() && Repr == old(Repr) && Capacity() == old(Capacity())
      ensures 0 <= index < old(|Elements|) ==>
        r == Ok(old(Elements)[index]) && Elements == SeqOps.Removed(old(Elements), index)
      ensures !(0 <= index < old(|Elements|)) ==>
        r == Err(IndexOutOfRange) && Elements == old(Elements)
    {
      if !(0 <= index < count) {
        return Err(IndexOutOfRange);
      }
      r := Ok(items[index]);
      var k := index;
      while k + 1 < count
        modifies items
        invariant index <= k < count
        invariant forall j :: 0 <= j < index ==> items[j] == Elements[j]
        invariant forall j :: index <= j < k ==> items[j] == Elements[j + 1]
        invariant forall j :: k <= j < count ==> items[j] == Elements[j]
      {
        items[k] := items[k + 1];
        k := k + 1;
      }
      Elements := SeqOps.Removed(Elements, index);
      count := count - 1;
      assert Elements == items[..count];
    }

    /** Exchanges the elements at `a` and `b`; both indices are checked
        before either position is written. */
    method Exchange(a: int, b: int) returns (r: Outcome)
      requires Valid()
      modifies Repr
      ensures Valid() && Repr == old(Repr) && Capacity() == old(Capacity())
      ensures 0 <= a < old(|Elements|) && 0 <= b < old(|Elements|) ==>
        r == Pass && Elements == SeqOps.Swapped(old(Elements), a, b)
      ensures !(0 <= a < old(|Elements|) && 0 <= b < old(|Elements|)) ==>
        r == Fail(IndexOutOfRange) && Elements == old(Elements)
    {
      if !(0 <= a < count && 0 <= b < count) {
        return Fail(IndexOutOfRange);
      }
      var t := items[a];
      items[a] := items[b];
      items[b] := t;
      Elements := SeqOps.Swapped(Elements, a, b);
      r := Pass;
    }

    /** Removes every element; the buffer is kept. */
    method Clear()
      requires Valid()
      modifies Repr
      ensures Valid() && Repr == old(Repr) && Capacity() == old(Capacity())
      ensures Elements == []
    {
      count := 0;
      Elements := [];
    }

    /** "[" + the elements' string forms joined by ", " + "]". */
    function ToString(show: T -> string): (s: string)
      reads this, Repr
      requires Valid()
      ensures s == Rendering.Render(Elements, show)
    {
      Rendering.Render(items[..count], show)
    }
  }
}
