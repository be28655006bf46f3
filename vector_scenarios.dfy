/** Client code that uses Vector only through its contracts. */
module VectorScenarios {
  import opened VectorModel
  import opened VectorImpl

  /** Build a vector by PushBack of `xs` in order: its contents are `xs`,
      and its buffer grew by doubling (see VectorModel.PushAllGrowth). */
  method FromSequence<T(0)>(xs: seq<T>) returns (v: Vector<T>)
    ensures v.Valid() && fresh(v.Repr)
    ensures v.Model() == PushAll(Empty(), xs)
    ensures v.Elements == xs
  {
    v := new Vector<T>();
    var i := 0;
    while i < |xs|
      invariant i <= |xs|
      invariant v.Valid() && fresh(v.Repr)
      invariant v.Model() == PushAll(Empty(), xs[..i])
    {
      assert xs[..i + 1][..i] == xs[..i];
      v.PushBack(xs[i]);
      i := i + 1;
    }
    assert xs[..i] == xs;
    PushAllAppends(Empty(), xs);
  }

  /** Three PushBack calls on an empty vector: the buffer grows 0, 1, 2, 4. */
  method PushThree<T(0)>(x: T, y: T, z: T) returns (v: Vector<T>)
    ensures v.Valid() && fresh(v.Repr)
    ensures v.Model() == State([x, y, z], 4)
  {
    v := new Vector<T>();
    v.PushBack(x);
    assert v.Model() == State([x], 1);
    v.PushBack(y);
    assert v.Model() == State([x, y], 2);
    v.PushBack(z);
  }

  /** Push 1, 2, 3; insert 9 at index 1; erase index 0; resize to 1; resize
      to 4 with value-initialised `d`.  The buffer has 4 slots when the last
      resize runs, so the as-written Resize gives exactly 4 elements. */
  method PushInsertEraseResize(d: int) returns (contents: seq<int>, size: nat, capacity: nat)
    ensures contents == [9, d, d, d] && size == 4 && capacity == 4
  {
    var v := PushThree(1, 2, 3);
    var at := v.Insert(1, 9);
    assert v.Elements == [1, 9, 2, 3] && at == 1;
    at := v.Erase(0);
    assert v.Elements == [9, 2, 3] && v.Capacity() == 4;
    v.Resize(1, d);
    assert v.Model() == State([9], 4);
    v.Resize(4, d);
    assert Repeat(d, 3) == [d, d, d];
    contents := [v.Get(0), v.Get(1), v.Get(2), v.Get(3)];
    size, capacity := v.Size(), v.Capacity();
  }

  /** Three pushes, two pops, then Resize(2): the spare capacity is filled
      too, so four elements are live, not two. */
  method ResizeFillsSpareCapacity(x: int, d: int) returns (size: nat, contents: seq<int>)
    ensures size == 4 && contents == [x, d, d, d]
  {
    var v := PushThree(x, x, x);
    v.PopBack();
    assert v.Model() == State([x, x], 4);
    v.PopBack();
    assert v.Model() == State([x], 4);
    v.Resize(2, d);
    assert Repeat(d, 3) == [d, d, d];
    size := v.Size();
    contents := [v.Get(0), v.Get(1), v.Get(2), v.Get(3)];
  }

  /** Inserting one of the vector's own elements on the in-place path: the
      value inserted is the element as it was before the call. */
  method InsertOwnElementInPlace() returns (contents: seq<int>)
    ensures contents == [3, 1, 2, 3]
  {
    var a := PushThree(1, 2, 3);
    var at := a.Insert(0, a.Get(2));
    assert a.Elements == InsertAt([1, 2, 3], 0, 3);
    assert a.Elements == [3, 1, 2, 3];
    contents := [a.Get(0), a.Get(1), a.Get(2), a.Get(3)];
  }

  /** The same on the grow-and-relocate path. */
  method InsertOwnElementGrowing() returns (contents: seq<int>, capacity: nat)
    ensures contents == [2, 1, 2] && capacity == 4
  {
    var b := new Vector<int>();
    b.PushBack(1);
    b.PushBack(2);
    assert b.Model() == State([1, 2], 2);
    var at := b.Insert(0, b.Get(1));
    assert b.Elements == InsertAt([1, 2], 0, 2);
    assert b.Model() == State([2, 1, 2], 4);
    contents := [b.Get(0), b.Get(1), b.Get(2)];
    capacity := b.Capacity();
  }

  /** Copy assignment from a smaller vector reuses the buffer. */
  method CopyIntoLarger() returns (contents: seq<int>, capacity: nat)
    ensures contents == [7] && capacity == 2
  {
    var a := new Vector<int>();
    a.PushBack(1);
    a.PushBack(2);
    var b := new Vector<int>();
    b.PushBack(7);
    assert a.Model() == State([1, 2], 2) && b.Model() == State([7], 1);
    a.Assign(b);
    contents, capacity := [a.Get(0)], a.Capacity();
  }

  /** Copy assignment from a larger vector reallocates to the source's size. */
  method CopyIntoSmaller() returns (contents: seq<int>, capacity: nat)
    ensures contents == [5, 6, 7] && capacity == 3
  {
    var a := new Vector<int>();
    a.PushBack(1);
    var c := new Vector<int>.Sized(3, 0);
    c.Set(0, 5);
    c.Set(1, 6);
    c.Set(2, 7);
    assert c.Elements == [5, 6, 7];
    a.Assign(c);
    contents, capacity := [a.Get(0), a.Get(1), a.Get(2)], a.Capacity();
  }

  /** A moved-from vector is empty; Swap exchanges contents and capacities. */
  method MoveThenSwap() returns (moved: seq<int>, movedFromSize: nat, swapped: seq<int>, swappedCapacity: nat)
    ensures moved == [5, 6] && movedFromSize == 0
    ensures swapped == [7] && swappedCapacity == 1
  {
    var a := new Vector<int>();
    a.PushBack(5);
    a.PushBack(6);
    assert a.Model() == State([5, 6], 2);
    var m := new Vector<int>.Moved(a);
    moved, movedFromSize := [m.Get(0), m.Get(1)], a.Size();
    var b := new Vector<int>();
    b.PushBack(7);
    assert b.Model() == State([7], 1);
    m.Swap(b);
    swapped, swappedCapacity := [m.Get(0)], m.Capacity();
  }
}
