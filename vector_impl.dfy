/** The two classes of vector.h: `RawMemory`, which owns a buffer of a fixed
    capacity, and `Vector`, which keeps its live elements in the slots
    [0, size) of one `RawMemory`.  Raw memory is an `array<T>`; a slot at or
    beyond `size` holds whatever value was last written there, and only the
    live prefix is part of the vector's contents.  Iterators are indices. */
module VectorImpl {
  import opened VectorModel

  /** std::uninitialized_move_n / std::uninitialized_copy_n between two
      buffers: `count` elements of `src` from `from` land in `dst` at `to`. */
  method Relocate<T>(src: array<T>, from: nat, count: nat, dst: array<T>, to: nat)
    requires src != dst
    requires from + count <= src.Length && to + count <= dst.Length
    modifies dst
    ensures forall j :: 0 <= j < dst.Length ==>
              dst[j] == if to <= j < to + count then src[from + (j - to)] else old(dst[j])
  {
    var i := 0;
    while i < count
      invariant i <= count
      invariant forall j :: 0 <= j < dst.Length ==>
                  dst[j] == if to <= j < to + i then src[from + (j - to)] else old(dst[j])
    {
      dst[to + i] := src[from + i];
      i := i + 1;
    }
  }

  /** std::uninitialized_value_construct_n: `count` slots from `from` get `v`. */
  method Fill<T>(a: array<T>, from: nat, count: nat, v: T)
    requires from + count <= a.Length
    modifies a
    ensures a[..] == old(a[..from]) + Repeat(v, count) + old(a[from + count..])
  {
    var i := 0;
    while i < count
      invariant i <= count
      invariant forall j :: 0 <= j < a.Length ==>
                  a[j] == if from <= j < from + i then v else old(a[j])
    {
      a[from + i] := v;
      i := i + 1;
    }
    assert a[..] == old(a[..from]) + Repeat(v, count) + old(a[from + count..]);
  }

  /** std::move_backward(a + first, a + last, a + last + 1): the range
      [first, last) moves one slot to the right, copying from the back. */
  method MoveBackward<T>(a: array<T>, first: nat, last: nat)
    requires first <= last < a.Length
    modifies a
    ensures forall j :: 0 <= j < a.Length ==>
              a[j] == if first < j <= last then old(a[j - 1]) else old(a[j])
  {
    var k := last;
    while k > first
      invariant first <= k <= last
      invariant forall j :: 0 <= j < a.Length ==>
                  a[j] == if k < j <= last then old(a[j - 1]) else old(a[j])
    {
      a[k] := a[k - 1];
      k := k - 1;
    }
  }

  /** std::move(a + first + 1, a + last, a + first): the range
      [first + 1, last) moves one slot to the left, copying from the front. */
  method MoveLeft<T>(a: array<T>, first: nat, last: nat)
    requires first < last <= a.Length
    modifies a
    ensures forall j :: 0 <= j < a.Length ==>
              a[j] == if first <= j < last - 1 then old(a[j + 1]) else old(a[j])
  {
    var k := first;
    while k < last - 1
      invariant first <= k <= last - 1
      invariant forall j :: 0 <= j < a.Length ==>
                  a[j] == if first <= j < k then old(a[j + 1]) else old(a[j])
    {
      a[k] := a[k + 1];
      k := k + 1;
    }
  }

  /** An owned block of `capacity` slots.  A capacity never changes for a
      given block; only Swap moves blocks between owners. */
  class RawMemory<T(0)> {
    var buffer: array<T>
    var capacity: nat

    ghost predicate Valid()
      reads this
    {
      buffer.Length == capacity
    }

    /** RawMemory(capacity) with Allocate(capacity); no block (nullptr) for
        capacity 0 is an empty array. */
    constructor (capacity: nat)
      ensures Valid() && this.capacity == capacity && fresh(buffer)
    {
      buffer := new T[capacity];
      this.capacity := capacity;
    }

    /** Move construction: start with no block and swap with `other`. */
    constructor Take(other: RawMemory<T>)
      requires other.Valid()
      modifies other
      ensures Valid() && other.Valid()
      ensures buffer == old(other.buffer) && capacity == old(other.capacity)
      ensures other.capacity == 0 && fresh(other.buffer)
    {
      buffer := new T[0];
      capacity := 0;
      new;
      Swap(other);
    }

    function Capacity(): (n: nat)
      reads this
      requires Valid()
      ensures n == buffer.Length
    {
      capacity
    }

    /** operator[] for reading: only slots below the capacity exist. */
    function Get(index: nat): (x: T)
      reads this, buffer
      requires Valid() && index < capacity
      ensures x == buffer[index]
    {
      buffer[index]
    }

    /** operator[] for writing through the returned reference. */
    method Put(index: nat, x: T)
      requires Valid() && index < capacity
      modifies buffer
      ensures buffer[..] == old(buffer[..])[index := x]
    {
      buffer[index] := x;
    }

    /** Move assignment: the two owners exchange blocks, so `rhs` receives
        the block this one held (the deallocation after it is commented out
        in the source). */
    method MoveAssign(rhs: RawMemory<T>)
      modifies this, rhs
      ensures buffer == old(rhs.buffer) && rhs.buffer == old(buffer)
      ensures capacity == old(rhs.capacity) && rhs.capacity == old(capacity)
    {
      Swap(rhs);
    }

    /** Exchanges blocks and capacities with `other` (also when it is this). */
    method Swap(other: RawMemory<T>)
      modifies this, other
      ensures buffer == old(other.buffer) && other.buffer == old(buffer)
      ensures capacity == old(other.capacity) && other.capacity == old(capacity)
    {
      var b, c := buffer, capacity;
      buffer, capacity := other.buffer, other.capacity;
      other.buffer, other.capacity := b, c;
    }
  }

  /** The dynamic array.  `Elements` is the live prefix of the buffer. */
  class Vector<T(0)> {
    const data: RawMemory<T>
    var size: nat
    ghost var Elements: seq<T>
    ghost var Repr: set<object>

    ghost predicate Valid()
      reads this, Repr
      ensures Valid() ==> this in Repr
    {
      this in Repr && data in Repr && data.buffer in Repr &&
      Repr == {this, data, data.buffer} &&
      data.Valid() && size <= data.capacity &&
      Elements == data.buffer[..size]
    }

    /** The abstract state the operations of VectorModel act on. */
    ghost function Model(): State<T>
      reads this, data
    {
      State(Elements, data.capacity)
    }

    /** Vector(): no buffer, no elements. */
    constructor ()
      ensures Valid() && fresh(Repr)
      ensures Model() == Empty()
    {
      data := new RawMemory<T>(0);
      size := 0;
      Elements := [];
      new;
      Repr := {this, data, data.buffer};
    }

    /** Vector(size): `n` value-initialised elements in a buffer of exactly
        `n` slots; `value` stands for the value-initialised T(). */
    constructor Sized(n: nat, value: T)
      ensures Valid() && fresh(Repr)
      ensures Model() == State(Repeat(value, n), n)
    {
      data := new RawMemory<T>(n);
      size := n;
      new;
      Fill(data.buffer, 0, n, value);
      Elements := data.buffer[..size];
      Repr := {this, data, data.buffer};
      assert data.buffer[..] == Repeat(value, n);
    }

    /** Copy construction: the same elements in a buffer of exactly
        other.Size() slots. */
    constructor Copy(other: Vector<T>)
      requires other.Valid()
      ensures Valid() && fresh(Repr)
      ensures Model() == State(other.Elements, |other.Elements|)
    {
      data := new RawMemory<T>(other.size);
      size := other.size;
      new;
      Relocate(other.data.buffer, 0, other.size, data.buffer, 0);
      Elements := data.buffer[..size];
      Repr := {this, data, data.buffer};
    }

    /** Move construction: takes over `other`'s buffer and elements and
        leaves `other` empty with no buffer. */
    constructor Moved(other: Vector<T>)
      requires other.Valid()
      modifies other, other.data
      ensures Valid() && fresh(Repr - old(other.Repr))
      ensures Model() == old(other.Model())
      ensures other.Valid() && fresh(other.Repr - old(other.Repr))
      ensures other.Model() == Empty()
    {
      data := new RawMemory<T>.Take(other.data);
      size := other.size;
      Elements := other.Elements;
      new;
      other.size := 0;
      other.Elements := [];
      other.Repr := {other, other.data, other.data.buffer};
      Repr := {this, data, data.buffer};
    }

    /** Size(). */
    function Size(): (n: nat)
      reads this, Repr
      requires Valid()
      ensures n == |Elements| && n <= data.capacity
    {
      size
    }

    /** Capacity(): never below Size(). */
    function Capacity(): (n: nat)
      reads this, Repr
      requires Valid()
      ensures n == data.buffer.Length && |Elements| <= n
    {
      data.Capacity()
    }

    /** operator[] for reading: requires index < Size(). */
    function Get(index: nat): (x: T)
      reads this, Repr
      requires Valid() && index < size
      ensures x == Elements[index]
    {
      data.Get(index)
    }

    /** operator[] for writing through the returned reference. */
    method Set(index: nat, x: T)
      requires Valid() && index < |Elements|
      modifies Repr
      ensures Valid() && Repr == old(Repr) && data.buffer == old(data.buffer)
      ensures Model() == State(old(Elements)[index := x], old(data.capacity))
    {
      data.Put(index, x);
      Elements := data.buffer[..size];
    }

    /** Exchanges buffers and sizes with `other`.  Swapping with itself
        changes nothing. */
    method Swap(other: Vector<T>)
      requires Valid() && other.Valid()
      requires this == other || Repr !! other.Repr
      modifies Repr, other.Repr
      ensures Valid() && other.Valid()
      ensures this == other || Repr !! other.Repr
      ensures Repr + other.Repr == old(Repr + other.Repr)
      ensures Model() == old(other.Model()) && other.Model() == old(Model())
    {
      data.Swap(other.data);
      var s := size;
      size := other.size;
      other.size := s;
      ghost var e := Elements;
      Elements := other.Elements;
      other.Elements := e;
      Repr := {this, data, data.buffer};
      other.Repr := {other, other.data, other.data.buffer};
    }

    /** Move assignment: exchanges buffers and sizes with `rhs`, as Swap. */
    method MoveAssign(rhs: Vector<T>)
      requires Valid() && rhs.Valid()
      requires this == rhs || Repr !! rhs.Repr
      modifies Repr, rhs.Repr
      ensures Valid() && rhs.Valid()
      ensures this == rhs || Repr !! rhs.Repr
      ensures Repr + rhs.Repr == old(Repr + rhs.Repr)
      ensures Model() == old(rhs.Model()) && rhs.Model() == old(Model())
    {
      Swap(rhs);
    }

    /** Copy assignment. */
    method Assign(rhs: Vector<T>)
      requires Valid() && rhs.Valid()
      requires this == rhs || Repr !! rhs.Repr
      modifies Repr
      ensures Valid() && fresh(Repr - old(Repr))
      ensures Model() == CopyAssign(old(Model()), old(rhs.Elements))
      ensures rhs.Valid() && rhs.Model() == old(rhs.Model())
    {
      if this != rhs {
        if rhs.size > data.Capacity() {
          var rhsCopy := new Vector<T>.Copy(rhs);
          Swap(rhsCopy);
        } else if rhs.size <= size {
          var i := 0;
          while i != rhs.size
            invariant i <= rhs.size
            invariant forall j :: 0 <= j < i ==> data.buffer[j] == rhs.Elements[j]
            modifies data.buffer
          {
            data.Put(i, rhs.data.Get(i));
            i := i + 1;
          }
          // DestroyN over [rhs.size, size): the surplus is no longer live.
          size := rhs.size;
          Elements := data.buffer[..size];
          assert Elements == rhs.Elements;
        } else {
          var i := 0;
          while i != size
            invariant i <= size
            invariant forall j :: 0 <= j < i ==> data.buffer[j] == rhs.Elements[j]
            modifies data.buffer
          {
            data.Put(i, rhs.data.Get(i));
            i := i + 1;
          }
          Relocate(rhs.data.buffer, i, rhs.size - i, data.buffer, i);
          size := rhs.size;
          Elements := data.buffer[..size];
          assert Elements == rhs.Elements;
        }
      }
    }

    /** Reserve(n): reallocates to exactly `n` slots when `n` exceeds the
        capacity, keeps the elements, and otherwise leaves the buffer alone. */
    method Reserve(newCapacity: nat)
      requires Valid()
      modifies Repr
      ensures Valid() && fresh(Repr - old(Repr))
      ensures Model() == VectorModel.Reserve(old(Model()), newCapacity)
      ensures newCapacity <= old(data.capacity) ==> data.buffer == old(data.buffer)
    {
      if newCapacity <= data.Capacity() {
        return;
      }
      var newData := new RawMemory<T>(newCapacity);
      Relocate(data.buffer, 0, size, newData.buffer, 0);
      data.Swap(newData);
      Repr := {this, data, data.buffer};
    }

    /** EmplaceBack(v) / PushBack(v); returns the index of the new last
        element. */
    method EmplaceBack(v: T) returns (last: nat)
      requires Valid()
      modifies Repr
      ensures Valid() && fresh(Repr - old(Repr))
      ensures Model() == VectorModel.EmplaceBack(old(Model()), v)
      ensures last == old(|Elements|) && last < |Elements| && Elements[last] == v
      ensures old(|Elements|) < old(data.capacity) ==> data.buffer == old(data.buffer)
    {
      ghost var before := Model();
      if data.Capacity() == 0 {
        var newData := new RawMemory<T>(1);
        newData.Put(0, v);
        data.Swap(newData);
        size := size + 1;
      } else if data.Capacity() == size {
        var newData := new RawMemory<T>(data.Capacity() * 2);
        newData.Put(size, v);
        Relocate(data.buffer, 0, size, newData.buffer, 0);
        data.Swap(newData);
        size := size + 1;
      } else {
        data.Put(size, v);
        size := size + 1;
      }
      Elements := Elements + [v];
      Repr := {this, data, data.buffer};
      assert Elements == data.buffer[..size];
      assert data.capacity == NextCapacity(|before.elems|, before.cap);
      last := size - 1;
    }

    /** PushBack(value). */
    method PushBack(value: T)
      requires Valid()
      modifies Repr
      ensures Valid() && fresh(Repr - old(Repr))
      ensures Model() == VectorModel.EmplaceBack(old(Model()), value)
    {
      var last := EmplaceBack(value);
    }

    /** PopBack(): requires a last element. */
    method PopBack()
      requires Valid() && |Elements| > 0
      modifies Repr
      ensures Valid() && Repr == old(Repr) && data.buffer == old(data.buffer)
      ensures Model() == VectorModel.PopBack(old(Model()))
    {
      size := size - 1;
      Elements := data.buffer[..size];
    }

    /** Resize(n), as written: see VectorModel.Resize. */
    method Resize(newSize: nat, value: T)
      requires Valid()
      modifies Repr
      ensures Valid() && fresh(Repr - old(Repr))
      ensures Model() == VectorModel.Resize(old(Model()), newSize, value)
    {
      if newSize == size {
        return;
      }
      if newSize > size {
        Reserve(newSize);
        Fill(data.buffer, size, data.Capacity() - size, value);
        assert data.buffer[..] == Elements + Repeat(value, data.capacity - size);
        size := data.Capacity();
      } else {
        // destroy_n over [newSize, size): the tail is no longer live.
        size := newSize;
      }
      Elements := data.buffer[..size];
    }

    /** The grow path of Emplace: a buffer twice as large receives the
        elements before `pos`, then `v`, then the rest, and replaces the old. */
    method InsertGrowing(pos: nat, v: T)
      requires Valid() && pos < size == data.capacity
      modifies Repr
      ensures Valid() && fresh(Repr - old(Repr))
      ensures Elements == InsertAt(old(Elements), pos, v)
      ensures data.capacity == 2 * old(data.capacity)
    {
      var newData := new RawMemory<T>(data.Capacity() * 2);
      newData.Put(pos, v);
      Relocate(data.buffer, 0, pos, newData.buffer, 0);
      Relocate(data.buffer, pos, size - pos, newData.buffer, pos + 1);
      ghost var ins := InsertAt(Elements, pos, v);
      assert forall j :: 0 <= j <= size ==> newData.buffer[j] == ins[j];
      data.Swap(newData);
      size := size + 1;
      Elements := ins;
      Repr := {this, data, data.buffer};
      assert Elements == data.buffer[..size];
    }

    /** The in-place path of Emplace: the last element is moved into the
        spare slot, [pos, size - 1) shifts right by one, and a copy of `v`
        taken beforehand is written at `pos`. */
    method InsertShifting(pos: nat, v: T)
      requires Valid() && pos < size < data.capacity
      modifies data.buffer, this`size, this`Elements
      ensures Valid() && Repr == old(Repr) && data.buffer == old(data.buffer)
      ensures Elements == InsertAt(old(Elements), pos, v)
      ensures data.capacity == old(data.capacity)
    {
      var temp := v;
      data.Put(size, data.Get(size - 1));
      MoveBackward(data.buffer, pos, size - 1);
      data.Put(pos, temp);
      ghost var ins := InsertAt(Elements, pos, v);
      assert forall j :: 0 <= j <= size ==> data.buffer[j] == ins[j];
      size := size + 1;
      Elements := ins;
      assert Elements == data.buffer[..size];
    }

    /** Emplace(pos, v): inserts `v` before index `pos` and returns `pos`. */
    method Emplace(pos: nat, v: T) returns (r: nat)
      requires Valid() && pos <= |Elements|
      modifies Repr
      ensures Valid() && fresh(Repr - old(Repr))
      ensures Model() == VectorModel.Emplace(old(Model()), pos, v)
      ensures r == pos
      ensures old(|Elements|) < old(data.capacity) ==> data.buffer == old(data.buffer)
    {
      if pos == size {
        EmplaceAtEnd(Model(), v);
        var last := EmplaceBack(v);
      } else if data.Capacity() == 0 {
        // Unreachable: an empty buffer holds no elements, so pos == size.
        assert false;
      } else if size == data.Capacity() {
        InsertGrowing(pos, v);
      } else {
        InsertShifting(pos, v);
      }
      r := pos;
    }

    /** Insert(pos, value).  When `value` is one of this vector's own
        elements the source copies it before emplacing; values are copied
        on every call here, so both paths are the same call. */
    method Insert(pos: nat, value: T) returns (r: nat)
      requires Valid() && pos <= |Elements|
      modifies Repr
      ensures Valid() && fresh(Repr - old(Repr))
      ensures Model() == VectorModel.Emplace(old(Model()), pos, value)
      ensures r == pos
    {
      r := Emplace(pos, value);
    }

    /** Erase(pos): removes the element at index `pos` and returns `pos`. */
    method Erase(pos: nat) returns (r: nat)
      requires Valid() && pos < |Elements|
      modifies Repr
      ensures Valid() && Repr == old(Repr) && data.buffer == old(data.buffer)
      ensures Model() == VectorModel.Erase(old(Model()), pos)
      ensures r == pos
    {
      MoveLeft(data.buffer, pos, size);
      ghost var rem := RemoveAt(Elements, pos);
      assert forall j :: 0 <= j < size - 1 ==> data.buffer[j] == rem[j];
      size := size - 1;
      Elements := rem;
      r := pos;
    }
  }
}
