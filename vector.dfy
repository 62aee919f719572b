/** The growable array `Vector<T>`: a block of `capacity` slots of which the first `size`
    hold the live elements, plus the flag recording whether a filling constructor (or a
    growing `resize`) made it, which selects the growth policy of `EmplaceBack`.
    Iterator arguments are integer offsets from the first slot. */
module Vectors {
  import opened Edits
  import opened Growth
  import opened Ranges

  /** What the checked accessor `at` gives: the element, or the out-of-range failure
      carrying the requested index and the size at the time. */
  datatype Result<T> = Ok(value: T) | OutOfRange(index: nat, size: nat)

  class Vector<T(0)> {
    var values: array?<T>
    var size: nat
    var capacity: nat
    var ctorInitialized: bool

    /** Slots in the block `values` points to; the null block has none. */
    function Slots(): (r: nat)
      reads this
    {
      if values == null then 0 else values.Length
    }

    /** Object invariant: the live elements fit the capacity, and the capacity fits the
        block. The block can be longer than the capacity: `Erase` down to no elements sets
        the capacity to 0 and keeps the old block. */
    ghost predicate Valid()
      reads this
    {
      size <= capacity <= Slots()
    }

    /** The live elements, slots `[0, size)`. */
    ghost function Contents(): (s: seq<T>)
      reads this, values
      requires size <= Slots()
      ensures |s| == size
    {
      if values == null then [] else values[..size]
    }

    /** The empty container: no block, no elements, not filling. */
    constructor ()
      ensures Valid() && values == null
      ensures size == 0 && capacity == 0 && !ctorInitialized
      ensures Contents() == []
    {
      values, size, capacity := null, 0, 0;
      ctorInitialized := false;
    }

    /** `Vector(sz)`: a block of `sz` slots and no live element. */
    constructor WithCapacity(sz: nat)
      ensures Valid() && values != null && fresh(values) && values.Length == sz
      ensures size == 0 && capacity == sz && !ctorInitialized
      ensures Contents() == []
    {
      values := new T[sz];
      size, capacity := 0, sz;
      ctorInitialized := false;
    }

    /** `Vector(sz, v)`: `sz` copies of `v` in a block of exactly `sz` slots; filling. */
    constructor Filled(sz: nat, v: T)
      ensures Valid() && values != null && fresh(values) && values.Length == sz
      ensures capacity == sz && ctorInitialized
      ensures Contents() == Repeat(v, sz)
    {
      var block := new T[sz];
      Fill(block, 0, sz, v);
      assert block[..sz] == Repeat(v, sz);
      values, size, capacity := block, sz, sz;
      ctorInitialized := true;
    }

    /** The initializer-list constructor: the listed elements, exactly that capacity; filling. */
    constructor FromList(list: seq<T>)
      ensures Valid() && values != null && fresh(values) && values.Length == |list|
      ensures capacity == |list| && ctorInitialized
      ensures Contents() == list
    {
      values := new T[|list|](i requires 0 <= i < |list| => list[i]);
      size, capacity := |list|, |list|;
      ctorInitialized := true;
    }

    /** The iterator-range constructor, with the range given as the sequence it denotes:
        those elements, exactly that capacity, and (unlike the filling constructors) the
        flag is left false. */
    constructor FromRange(items: seq<T>)
      ensures Valid() && values != null && fresh(values) && values.Length == |items|
      ensures capacity == |items| && !ctorInitialized
      ensures Contents() == items
    {
      values := new T[|items|](i requires 0 <= i < |items| => items[i]);
      size, capacity := |items|, |items|;
      ctorInitialized := false;
    }

    /** The copy constructor: the source's live elements in a fresh block of exactly that
        many slots; the flag is left false whatever the source's is. */
    constructor Copy(src: Vector<T>)
      requires src.Valid()
      ensures Valid() && values != null && fresh(values) && values.Length == src.size
      ensures capacity == src.size && !ctorInitialized
      ensures Contents() == src.Contents()
    {
      var block := new T[src.size];
      if src.values != null {
        CopyPrefix(src.values, block, src.size);
      }
      assert block[..src.size] == src.Contents();
      values, size, capacity := block, src.size, src.size;
      ctorInitialized := false;
    }

    /** The move constructor: start empty, then swap with the source, which is left with
        no block, no elements and no capacity. The flags are not exchanged. */
    constructor Move(mv: Vector<T>)
      requires mv.Valid()
      modifies mv
      ensures Valid() && mv.Valid()
      ensures values == old(mv.values) && size == old(mv.size) && capacity == old(mv.capacity)
      ensures !ctorInitialized
      ensures Contents() == old(mv.Contents())
      ensures mv.values == null && mv.size == 0 && mv.capacity == 0
      ensures mv.ctorInitialized == old(mv.ctorInitialized)
    {
      values, size, capacity := null, 0, 0;
      ctorInitialized := false;
      new;
      Swap(mv);
    }

    /** Assignment from a by-value parameter (already a copy or a move of the right-hand
        side): swap with it, so that it carries the previous state away. */
    method Assign(src: Vector<T>)
      requires Valid() && src.Valid()
      modifies this, src
      ensures Valid() && src.Valid()
      ensures values == old(src.values) && size == old(src.size) && capacity == old(src.capacity)
      ensures src.values == old(values) && src.size == old(size) && src.capacity == old(capacity)
      ensures ctorInitialized == old(ctorInitialized) && src.ctorInitialized == old(src.ctorInitialized)
      ensures Contents() == old(src.Contents())
    {
      Swap(src);
    }

    /** Exchanges block, size and capacity with `other`; the flags stay where they are. */
    method Swap(other: Vector<T>)
      requires Valid() && other.Valid()
      modifies this, other
      ensures Valid() && other.Valid()
      ensures values == old(other.values) && other.values == old(values)
      ensures size == old(other.size) && other.size == old(size)
      ensures capacity == old(other.capacity) && other.capacity == old(capacity)
      ensures ctorInitialized == old(ctorInitialized) && other.ctorInitialized == old(other.ctorInitialized)
      ensures Contents() == old(other.Contents()) && other.Contents() == old(Contents())
    {
      values, other.values := other.values, values;
      size, other.size := other.size, size;
      capacity, other.capacity := other.capacity, capacity;
    }

    /** Number of live elements. */
    function Size(): (r: nat)
      reads this, values
      requires Valid()
      ensures r == |Contents()|
    {
      size
    }

    /** Number of slots usable without reallocating; never below the size. */
    function Capacity(): (r: nat)
      reads this
      requires Valid()
      ensures size <= r
    {
      capacity
    }

    /** True exactly when there is no live element (the first and the end position meet). */
    function Empty(): (r: bool)
      reads this, values
      requires Valid()
      ensures r <==> Contents() == []
    {
      size == 0
    }

    /** Unchecked indexing `operator[]`: defined for live positions only. */
    function Get(n: nat): (r: T)
      reads this, values
      requires Valid() && n < size
      ensures r == Contents()[n]
    {
      values[n]
    }

    /** Checked indexing `at`: fails exactly when `n` is not a live position, and otherwise
        gives what unchecked indexing gives. */
    function At(n: nat): (r: Result<T>)
      reads this, values
      requires Valid()
      ensures r.OutOfRange? <==> n >= size
      ensures r.OutOfRange? ==> r.index == n && r.size == size
      ensures n < size ==> r == Ok(Get(n))
    {
      if n >= size then OutOfRange(n, size) else Ok(values[n])
    }

    /** The first live element; undefined on an empty container. */
    function Front(): (r: T)
      reads this, values
      requires Valid() && size > 0
      ensures r == Contents()[0]
    {
      values[0]
    }

    /** The last live element; undefined on an empty container. */
    function Back(): (r: T)
      reads this, values
      requires Valid() && size > 0
      ensures r == Contents()[size - 1]
    {
      values[size - 1]
    }

    /** Walks the live range from the first position to the end one, collecting the
        elements in order. */
    method Elements() returns (s: seq<T>)
      requires Valid()
      ensures s == Contents()
    {
      s := [];
      var i := 0;
      while i < size
        invariant i <= size
        invariant s == Contents()[..i]
      {
        s := s + [values[i]];
        i := i + 1;
      }
    }

    /** Moves the live elements into a fresh block of exactly `capacity` slots, in order. */
    method Reallocate()
      requires size <= capacity && size <= Slots()
      modifies this`values
      ensures values != null && fresh(values) && values.Length == capacity
      ensures Contents() == old(Contents())
    {
      var block := new T[capacity];
      if values != null {
        CopyPrefix(values, block, size);
      }
      values := block;
      assert values[..size] == old(Contents());
    }

    /** Appends `x`, first growing a full block by the policy the flag selects. A filling
        container with no capacity would double 0 to 0 and write past its block, so it is
        excluded. */
    method EmplaceBack(x: T)
      requires Valid()
      requires !ctorInitialized || capacity > 0
      modifies this, values
      ensures Valid() && ctorInitialized == old(ctorInitialized)
      ensures Contents() == old(Contents()) + [x]
      ensures capacity == if old(size) == old(capacity) then Grown(old(size), old(ctorInitialized)) else old(capacity)
      ensures old(size) < old(capacity) ==> values == old(values)
      ensures old(size) == old(capacity) ==> values != null && fresh(values)
    {
      if size == capacity {
        if ctorInitialized {
          capacity := capacity * 2;
        } else if size == 0 {
          capacity := 1;
        } else if size < 8 {
          capacity := capacity + 1;
        } else {
          capacity := capacity * 2;
        }
        Reallocate();
      }
      ghost var before := Contents();
      values[size] := x;
      size := size + 1;
      assert values[..size] == before + [x];
    }

    /** `push_back`: appends through `EmplaceBack`. */
    method PushBack(x: T)
      requires Valid()
      requires !ctorInitialized || capacity > 0
      modifies this, values
      ensures Valid() && ctorInitialized == old(ctorInitialized)
      ensures Contents() == old(Contents()) + [x]
      ensures capacity == if old(size) == old(capacity) then Grown(old(size), old(ctorInitialized)) else old(capacity)
      ensures old(size) < old(capacity) ==> values == old(values)
      ensures old(size) == old(capacity) ==> values != null && fresh(values)
    {
      EmplaceBack(x);
    }

    /** Inserts `x` at offset `dist`. When `dist` equals the capacity (so the block is full
        and the insertion is at the end) this is `EmplaceBack`; otherwise a full block is
        doubled, the tail moves up one slot and `x` goes into the gap. */
    method Emplace(dist: nat, x: T)
      requires Valid() && dist <= size
      requires !ctorInitialized || capacity > 0
      modifies this, values
      ensures Valid() && ctorInitialized == old(ctorInitialized)
      ensures Contents() == Splice(old(Contents()), dist, [x])
      ensures capacity ==
        if dist == old(capacity) then Grown(old(size), old(ctorInitialized))
        else if old(size) == old(capacity) then 2 * old(capacity)
        else old(capacity)
      ensures old(size) < old(capacity) ==> values == old(values)
      ensures old(size) == old(capacity) ==> values != null && fresh(values)
    {
      if dist == capacity {
        EmplaceBack(x);
        assert old(Contents()) + [x] == Splice(old(Contents()), dist, [x]);
      } else {
        if size == capacity {
          capacity := capacity * 2;
          Reallocate();
        }
        OpenGap(dist, 1, x);
        assert Repeat(x, 1) == [x];
      }
    }

    /** The single-element `insert` overloads: insert through `Emplace`. */
    method Insert(dist: nat, x: T)
      requires Valid() && dist <= size
      requires !ctorInitialized || capacity > 0
      modifies this, values
      ensures Valid() && ctorInitialized == old(ctorInitialized)
      ensures Contents() == Splice(old(Contents()), dist, [x])
      ensures capacity ==
        if dist == old(capacity) then Grown(old(size), old(ctorInitialized))
        else if old(size) == old(capacity) then 2 * old(capacity)
        else old(capacity)
      ensures old(size) < old(capacity) ==> values == old(values)
      ensures old(size) == old(capacity) ==> values != null && fresh(values)
    {
      Emplace(dist, x);
    }

    /** The fill `insert`: `n` copies of `v` at offset `dist`. If they do not fit, the
        capacity grows by exactly `n` first; then the tail moves up `n` slots and the gap
        is filled. */
    method InsertFill(dist: nat, n: nat, v: T)
      requires Valid() && dist <= size
      modifies this, values
      ensures Valid() && ctorInitialized == old(ctorInitialized)
      ensures Contents() == Splice(old(Contents()), dist, Repeat(v, n))
      ensures capacity == if old(size) + n > old(capacity) then old(capacity) + n else old(capacity)
      ensures old(size) + n <= old(capacity) ==> values == old(values)
      ensures old(size) + n > old(capacity) ==> values != null && fresh(values)
    {
      if size + n > capacity {
        capacity := capacity + n;
        Reallocate();
      }
      OpenGap(dist, n, v);
    }

    /** Moves the elements from offset `dist` on up by `n` slots, highest first, and writes
        `v` into the `n` slots this opens; the block must already have room for them. */
    method OpenGap(dist: nat, n: nat, v: T)
      requires Valid() && dist <= size && size + n <= capacity
      modifies this`size, values
      ensures Valid() && size == old(size) + n
      ensures Contents() == Splice(old(Contents()), dist, Repeat(v, n))
    {
      ghost var before := Contents();
      if values != null {
        ghost var target := Splice(before, dist, Repeat(v, n));
        var block, count := values, size;
        assert forall k :: 0 <= k < count ==> block[k] == before[k];
        MoveBackward(block, dist, count, n);
        assert forall k :: 0 <= k < dist ==> block[k] == before[k];
        assert forall k :: dist + n <= k < count + n ==> block[k] == before[k - n];
        Fill(block, dist, dist + n, v);
        assert forall k :: 0 <= k < count + n ==> block[k] == target[k];
        assert block[..count + n] == target;
      }
      size := size + n;
    }

    /** `pop_back`: drops the last live element; capacity and block stay. */
    method PopBack()
      requires Valid() && size > 0
      modifies this`size
      ensures Valid()
      ensures Contents() == old(Contents())[..old(size) - 1]
    {
      size := size - 1;
    }

    /** Single-element `erase` at offset `dist`: the element count drops by one (an empty
        container stays empty), the capacity becomes the least power of two from 4 up that
        holds the remaining elements (0 when none remain), and the survivors are copied in
        order into a fresh block of that capacity. With no survivor the old block is kept. */
    method Erase(dist: nat)
      requires Valid() && (size == 0 || dist < size)
      modifies this
      ensures Valid() && ctorInitialized == old(ctorInitialized)
      ensures size == if old(size) == 0 then 0 else old(size) - 1
      ensures old(size) > 0 ==> Contents() == RemoveRange(old(Contents()), dist, dist + 1)
      ensures capacity == ErasedCapacity(size)
      ensures size == 0 ==> values == old(values)
      ensures size > 0 ==> values != null && fresh(values)
    {
      ghost var before := Contents();
      if size != 0 {
        size := size - 1;
      }
      var inc := SmallestCoveringExponent(size);
      if size == 0 {
        capacity := 0;
      } else {
        capacity := Pow2(inc);
      }
      if capacity != 0 {
        ghost var survivors := RemoveRange(before, dist, dist + 1);
        var temp := new T[capacity];
        var i, j := 0, 0;
        assert values != null && before == values[..size + 1];
        while j <= size
          invariant j <= size + 1
          invariant i == if j <= dist then j else j - 1
          invariant forall k :: 0 <= k < i ==> temp[k] == survivors[k]
          modifies temp
        {
          if j != dist {
            assert values[j] == before[j];
            temp[i] := values[j];
            i := i + 1;
          }
          j := j + 1;
        }
        values := temp;
        assert values[..size] == survivors;
      }
    }

    /** Range `erase` of `[first, last)`: the elements after the run move down over it; the
        capacity and the block stay. */
    method EraseRange(first: nat, last: nat)
      requires Valid() && first <= last <= size
      modifies this`size, values
      ensures Valid()
      ensures Contents() == RemoveRange(old(Contents()), first, last)
    {
      ghost var before := Contents();
      if values != null {
        MoveDown(values, first, last, size);
      }
      size := size - (last - first);
      assert Contents() == RemoveRange(before, first, last);
    }

    /** `clear`: no live element any more; capacity and block stay. */
    method Clear()
      requires Valid()
      modifies this`size
      ensures Valid() && Contents() == []
    {
      size := 0;
    }

    /** `shrink_to_fit`: the capacity becomes the size, in a fresh block. */
    method ShrinkToFit()
      requires Valid()
      modifies this`capacity, this`values
      ensures Valid() && capacity == size
      ensures values != null && fresh(values)
      ensures Contents() == old(Contents())
    {
      capacity := size;
      Reallocate();
    }

    /** `reserve(n)`: grows the capacity to exactly `n` in a fresh block when `n` exceeds
        it; otherwise nothing happens. The live elements never change. */
    method Reserve(n: nat)
      requires Valid()
      modifies this`capacity, this`values
      ensures Valid()
      ensures capacity == if n > old(capacity) then n else old(capacity)
      ensures n <= old(capacity) ==> values == old(values)
      ensures n > old(capacity) ==> values != null && fresh(values)
      ensures Contents() == old(Contents())
    {
      if n > capacity {
        capacity := n;
        Reallocate();
      }
    }

    /** `resize(n)`: growing past the capacity makes the container filling and reallocates
        to exactly `n` slots; the size becomes `n`. The first `min(n, old size)` elements
        are kept; slots newly exposed hold whatever the block held. */
    method Resize(n: nat)
      requires Valid()
      modifies this
      ensures Valid() && size == n
      ensures capacity == if n > old(capacity) then n else old(capacity)
      ensures ctorInitialized == (old(ctorInitialized) || n > old(capacity))
      ensures n <= old(capacity) ==> values == old(values)
      ensures n > old(capacity) ==> values != null && fresh(values)
      ensures n <= old(size) ==> Contents() == old(Contents())[..n]
      ensures n > old(size) ==> Contents()[..old(size)] == old(Contents())
    {
      if n > capacity {
        ctorInitialized := true;
        capacity := n;
        Reallocate();
      }
      ghost var before := Contents();
      size := n;
      if values != null {
        assert n <= old(size) ==> values[..n] == before[..n];
        assert n > old(size) ==> values[..n][..old(size)] == before;
      }
    }

    /** `resize(n, v)`: as `Resize`, and every slot from the old size up to `n` gets `v`. */
    method ResizeFill(n: nat, v: T)
      requires Valid()
      modifies this, values
      ensures Valid()
      ensures capacity == if n > old(capacity) then n else old(capacity)
      ensures ctorInitialized == (old(ctorInitialized) || n > old(capacity))
      ensures n <= old(capacity) ==> values == old(values)
      ensures n > old(capacity) ==> values != null && fresh(values)
      ensures Contents() == Resized(old(Contents()), n, v)
    {
      if n > capacity {
        ctorInitialized := true;
        capacity := n;
        Reallocate();
      }
      ghost var before := Contents();
      if n > size {
        Fill(values, size, n, v);
      }
      size := n;
      if values != null {
        assert values[..n] == Resized(before, n, v);
      }
    }
  }

  /** `operator==`: equal sizes and equal elements position by position, which is the same
      as equal live contents. */
  function Equal<T(0,==)>(lhs: Vector<T>, rhs: Vector<T>): (r: bool)
    reads lhs, lhs.values, rhs, rhs.values
    requires lhs.Valid() && rhs.Valid()
    ensures r <==> lhs.Contents() == rhs.Contents()
  {
    lhs.size == rhs.size && forall i :: 0 <= i < lhs.size ==> lhs.values[i] == rhs.values[i]
  }

  /** `operator!=`: the negation of `Equal`. */
  function NotEqual<T(0,==)>(lhs: Vector<T>, rhs: Vector<T>): (r: bool)
    reads lhs, lhs.values, rhs, rhs.values
    requires lhs.Valid() && rhs.Valid()
    ensures r <==> lhs.Contents() != rhs.Contents()
  {
    !Equal(lhs, rhs)
  }
}
