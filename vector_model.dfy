/** Abstract semantics of the dynamic array of vector.h.

    A state is the sequence of live elements (the slots [0, size) of the raw
    buffer) together with the capacity of that buffer.  Each public operation
    of `Vector` that changes contents or capacity is one function from state
    to state here; the class methods in module VectorImpl are proved to
    implement exactly these functions, and the lemmas below state what the
    operations promise about each other. */
module VectorModel {

  datatype State<T> = State(elems: seq<T>, cap: nat)

  /** The object invariant: the live prefix fits in the buffer. */
  predicate Inv<T>(st: State<T>)
  {
    |st.elems| <= st.cap
  }

  /** A default-constructed vector: no buffer, no elements. */
  function Empty<T>(): State<T>
  {
    State([], 0)
  }

  /** `n` copies of `v`, the values value-initialisation writes. */
  function Repeat<T>(v: T, n: nat): (r: seq<T>)
    ensures |r| == n
    ensures forall i :: 0 <= i < n ==> r[i] == v
  {
    if n == 0 then [] else Repeat(v, n - 1) + [v]
  }

  /** `s` with `v` placed before position `p`. */
  function InsertAt<T>(s: seq<T>, p: nat, v: T): (r: seq<T>)
    requires p <= |s|
    ensures |r| == |s| + 1
    ensures forall i :: 0 <= i < |r| ==>
              r[i] == (if i < p then s[i] else if i == p then v else s[i - 1])
  {
    s[..p] + [v] + s[p..]
  }

  /** `s` without the element at position `p`. */
  function RemoveAt<T>(s: seq<T>, p: nat): (r: seq<T>)
    requires p < |s|
    ensures |r| == |s| - 1
    ensures forall i :: 0 <= i < |r| ==> r[i] == (if i < p then s[i] else s[i + 1])
  {
    s[..p] + s[p + 1..]
  }

  /** Capacity after one element is added to `size` live elements held in a
      buffer of `cap` slots: a fresh buffer of one slot when there is none,
      a buffer twice as large when the buffer is full, otherwise the same. */
  function NextCapacity(size: nat, cap: nat): (c: nat)
    requires size <= cap
    ensures size < c <= 2 * cap + 1
    ensures cap <= c
    ensures c != cap ==> size == cap
    ensures cap == 0 ==> c == 1
    ensures 0 < cap == size ==> c == 2 * cap
    ensures size < cap ==> c == cap
  {
    if cap == 0 then 1 else if cap == size then cap * 2 else cap
  }

  /** Reserve(n): reallocate to exactly `n` slots when `n` exceeds the capacity. */
  function Reserve<T>(st: State<T>, n: nat): (r: State<T>)
    requires Inv(st)
    ensures Inv(r) && r.elems == st.elems
    ensures n <= r.cap && st.cap <= r.cap
    ensures r.cap == st.cap || r.cap == n
  {
    if n <= st.cap then st else State(st.elems, n)
  }

  /** EmplaceBack(v) / PushBack(v). */
  function EmplaceBack<T>(st: State<T>, v: T): (r: State<T>)
    requires Inv(st)
    ensures Inv(r)
    ensures |r.elems| == |st.elems| + 1 && r.elems[|st.elems|] == v
    ensures r.elems[..|st.elems|] == st.elems
    ensures st.cap == 0 ==> r.cap == 1
    ensures 0 < st.cap == |st.elems| ==> r.cap == 2 * st.cap
    ensures |st.elems| < st.cap ==> r.cap == st.cap
  {
    State(st.elems + [v], NextCapacity(|st.elems|, st.cap))
  }

  /** PopBack(). */
  function PopBack<T>(st: State<T>): (r: State<T>)
    requires Inv(st) && |st.elems| > 0
    ensures Inv(r) && r.cap == st.cap
    ensures r.elems + [st.elems[|st.elems| - 1]] == st.elems
  {
    State(st.elems[..|st.elems| - 1], st.cap)
  }

  /** Emplace(pos, v) / Insert(pos, v) at index `p`. */
  function Emplace<T>(st: State<T>, p: nat, v: T): (r: State<T>)
    requires Inv(st) && p <= |st.elems|
    ensures Inv(r)
    ensures |r.elems| == |st.elems| + 1
    ensures forall i :: 0 <= i < |r.elems| ==>
              r.elems[i] == (if i < p then st.elems[i] else if i == p then v else st.elems[i - 1])
    ensures st.cap == 0 ==> r.cap == 1
    ensures 0 < st.cap == |st.elems| ==> r.cap == 2 * st.cap
    ensures |st.elems| < st.cap ==> r.cap == st.cap
  {
    State(InsertAt(st.elems, p, v), NextCapacity(|st.elems|, st.cap))
  }

  /** Erase(pos) at index `p`. */
  function Erase<T>(st: State<T>, p: nat): (r: State<T>)
    requires Inv(st) && p < |st.elems|
    ensures Inv(r) && r.cap == st.cap
    ensures |r.elems| + 1 == |st.elems|
    ensures forall i :: 0 <= i < |r.elems| ==>
              r.elems[i] == (if i < p then st.elems[i] else st.elems[i + 1])
  {
    State(RemoveAt(st.elems, p), st.cap)
  }

  /** Resize(n) as written: growing reserves `n` and then value-initialises
      every slot up to the capacity, so the new size is the capacity. */
  function Resize<T>(st: State<T>, n: nat, v: T): (r: State<T>)
    requires Inv(st)
    ensures Inv(r)
    ensures n <= |st.elems| ==> r == State(st.elems[..n], st.cap)
    ensures n > |st.elems| ==>
              r.cap == Reserve(st, n).cap && |r.elems| == r.cap &&
              r.elems[..|st.elems|] == st.elems &&
              forall i :: |st.elems| <= i < |r.elems| ==> r.elems[i] == v
  {
    var size := |st.elems|;
    if n == size then st
    else if n > size then
      var grown := Reserve(st, n);
      State(st.elems + Repeat(v, grown.cap - size), grown.cap)
    else
      State(st.elems[..n], st.cap)
  }

  /** Resize(n) with the usual meaning: the new size is exactly `n`, and only
      the newly exposed slots are value-initialised. */
  function ResizeExact<T>(st: State<T>, n: nat, v: T): (r: State<T>)
    requires Inv(st)
    ensures Inv(r) && |r.elems| == n && r.cap == Reserve(st, n).cap
    ensures n <= |st.elems| ==> r.elems == st.elems[..n]
    ensures n > |st.elems| ==>
              r.elems[..|st.elems|] == st.elems &&
              forall i :: |st.elems| <= i < n ==> r.elems[i] == v
  {
    var size := |st.elems|;
    if n <= size then State(st.elems[..n], st.cap)
    else State(st.elems + Repeat(v, n - size), Reserve(st, n).cap)
  }

  /** Copy assignment from a vector holding `src`: reallocate to exactly
      |src| slots only when |src| exceeds the capacity. */
  function CopyAssign<T>(st: State<T>, src: seq<T>): (r: State<T>)
    requires Inv(st)
    ensures Inv(r) && r.elems == src
    ensures r.cap == Reserve(st, |src|).cap
  {
    State(src, if |src| > st.cap then |src| else st.cap)
  }

  /** The state after PushBack of every value of `xs`, in order. */
  function PushAll<T>(st: State<T>, xs: seq<T>): (r: State<T>)
    requires Inv(st)
    ensures Inv(r)
    decreases |xs|
  {
    if xs == [] then st
    else EmplaceBack(PushAll(st, xs[..|xs| - 1]), xs[|xs| - 1])
  }

  /** How many of those PushBack calls found the buffer full and so
      allocated a new one. */
  function Reallocations<T>(st: State<T>, xs: seq<T>): nat
    requires Inv(st)
    decreases |xs|
  {
    if xs == [] then 0
    else
      var before := PushAll(st, xs[..|xs| - 1]);
      Reallocations(st, xs[..|xs| - 1]) + (if |before.elems| == before.cap then 1 else 0)
  }

  function Pow2(k: nat): nat
  {
    if k == 0 then 1 else 2 * Pow2(k - 1)
  }

  // ---------------------------------------------------------------------
  // Properties of the operations

  /** Emplace at the end is EmplaceBack (the `pos == cend()` branch). */
  lemma EmplaceAtEnd<T>(st: State<T>, v: T)
    requires Inv(st)
    ensures Emplace(st, |st.elems|, v) == EmplaceBack(st, v)
  {
    assert InsertAt(st.elems, |st.elems|, v) == st.elems + [v];
  }

  /** Erase at the position Insert returned restores the original sequence;
      the capacity is the one the insertion left. */
  lemma EraseUndoesEmplace<T>(st: State<T>, p: nat, v: T)
    requires Inv(st) && p <= |st.elems|
    ensures Erase(Emplace(st, p, v), p) == State(st.elems, NextCapacity(|st.elems|, st.cap))
  {
    var ins := InsertAt(st.elems, p, v);
    var back := RemoveAt(ins, p);
    assert |back| == |st.elems|;
    forall i | 0 <= i < |back|
      ensures back[i] == st.elems[i]
    {
      if i < p {
        assert back[i] == ins[i];
      } else {
        assert back[i] == ins[i + 1];
      }
    }
    assert back == st.elems;
  }

  /** PopBack undoes PushBack and keeps the capacity PushBack produced. */
  lemma PopBackUndoesEmplaceBack<T>(st: State<T>, v: T)
    requires Inv(st)
    ensures PopBack(EmplaceBack(st, v)).elems == st.elems
    ensures PopBack(EmplaceBack(st, v)).cap == NextCapacity(|st.elems|, st.cap)
  {
  }

  /** Reserve is idempotent, and a no-op when the capacity suffices. */
  lemma ReserveIdempotent<T>(st: State<T>, n: nat)
    requires Inv(st)
    ensures Reserve(Reserve(st, n), n) == Reserve(st, n)
    ensures n <= st.cap ==> Reserve(st, n) == st
  {
  }

  /** Self-assignment changes nothing. */
  lemma SelfAssignIsNoOp<T>(st: State<T>)
    requires Inv(st)
    ensures CopyAssign(st, st.elems) == st
  {
  }

  /** Resize as written and the exact Resize agree except when the
      capacity already exceeded the requested size. */
  lemma ResizeAgreesUnlessSpareCapacity<T>(st: State<T>, n: nat, v: T)
    requires Inv(st)
    requires n <= |st.elems| || st.cap <= n
    ensures Resize(st, n, v) == ResizeExact(st, n, v)
  {
    var size := |st.elems|;
    if n > size {
      assert Reserve(st, n).cap == n;
    }
  }

  /** Conversely, whenever the buffer has spare room beyond the requested
      size, Resize as written overshoots: it fills the buffer to capacity. */
  lemma ResizeOvershootsOnSpareCapacity<T>(st: State<T>, n: nat, v: T)
    requires Inv(st) && |st.elems| < n < st.cap
    ensures |Resize(st, n, v).elems| == st.cap > n
    ensures Resize(st, n, v) != ResizeExact(st, n, v)
  {
    assert |Resize(st, n, v).elems| == st.cap;
  }

  /** A reachable state (three pushes, two pops) on which Resize as written
      overshoots: Resize(2) leaves four elements, not two. */
  lemma ResizeOvershoots<T>(x: T, d: T)
    ensures PushAll(Empty(), [x, x, x]) == State([x, x, x], 4)
    ensures PopBack(PopBack(State([x, x, x], 4))) == State([x], 4)
    ensures Resize(State([x], 4), 2, d).elems == [x, d, d, d]
    ensures |ResizeExact(State([x], 4), 2, d).elems| == 2
  {
    var xs := [x, x, x];
    assert xs[..2] == [x, x] && [x, x][..1] == [x] && [x][..0] == [];
    assert PushAll(Empty(), [x]) == State([x], 1);
    assert PushAll(Empty(), [x, x]) == State([x, x], 2);
    assert Repeat(d, 3) == [d, d, d];
  }

  /** Pushing `xs` appends exactly `xs`, in push order. */
  lemma {:induction false} PushAllAppends<T>(st: State<T>, xs: seq<T>)
    requires Inv(st)
    ensures PushAll(st, xs).elems == st.elems + xs
    decreases |xs|
  {
    if xs != [] {
      var init := xs[..|xs| - 1];
      PushAllAppends(st, init);
      assert xs == init + [xs[|xs| - 1]];
    }
  }

  /** Amortised doubling: after n > 0 PushBack calls on an empty vector the
      capacity is a power of two in [n, 2n), and it was reached by exactly
      k reallocations where 2^(k-1) is that capacity, so k is about log2(n). */
  lemma {:induction false} PushAllGrowth<T>(xs: seq<T>)
    ensures xs == [] ==> PushAll(Empty(), xs).cap == 0 && Reallocations(Empty(), xs) == 0
    ensures xs != [] ==>
              var k := Reallocations(Empty<T>(), xs);
              var c := PushAll(Empty<T>(), xs).cap;
              k >= 1 && c == Pow2(k - 1) && |xs| <= c < 2 * |xs|
    decreases |xs|
  {
    if xs != [] {
      var init := xs[..|xs| - 1];
      var before := PushAll(Empty<T>(), init);
      PushAllAppends(Empty<T>(), init);
      assert |before.elems| == |init|;
      PushAllGrowth(init);
      if init == [] {
        assert before == Empty<T>();
      }
    }
  }
}
