/** Clients of `Vector` that state, from the operations' contracts alone, the behaviour
    the container promises over several calls: the growth trace, value semantics of copy,
    move and swap, and the documented edit and resize sequences. */
module Scenarios {
  import opened Edits
  import opened Vectors

  /** Capacities observed after each of nine appends to an empty container. */
  const NINE_APPENDS: seq<nat> := [1, 2, 3, 4, 5, 6, 7, 8, 16]

  /** Appending nine elements to an empty container: capacity grows by one slot up to 8,
      then doubles. */
  method GrowthTrace() returns (caps: seq<nat>)
    ensures caps == NINE_APPENDS
  {
    var v := new Vector<int>();
    caps := [];
    var i := 0;
    while i < 9
      invariant i <= 9 && caps == NINE_APPENDS[..i]
      invariant v.Valid() && !v.ctorInitialized && v.size == i
      invariant v.capacity == if i == 0 then 0 else NINE_APPENDS[i - 1]
      invariant v.values == null || fresh(v.values)
    {
      v.PushBack(i);
      caps := caps + [v.Capacity()];
      i := i + 1;
    }
  }

  /** A container built by the filling constructor doubles from its initial capacity. */
  method FillingGrowthTrace() returns (caps: seq<nat>)
    ensures caps == [4, 4, 8]
  {
    var v := new Vector.Filled(2, 0);
    caps := [];
    v.PushBack(1); caps := caps + [v.Capacity()];
    v.PushBack(2); caps := caps + [v.Capacity()];
    v.PushBack(3); caps := caps + [v.Capacity()];
  }

  /** After `k` appends to an empty container the size is `k` and the capacity holds it. */
  method AppendMany(k: nat) returns (size: nat, capacity: nat)
    ensures size == k && size <= capacity
  {
    var v := new Vector<nat>();
    var i := 0;
    while i < k
      invariant i <= k
      invariant v.Valid() && !v.ctorInitialized && v.size == i
      invariant v.values == null || fresh(v.values)
    {
      v.PushBack(i);
      i := i + 1;
    }
    size, capacity := v.Size(), v.Capacity();
  }

  /** Append 1, 2, 3; erase the middle element; insert 9 at offset 1; drop the last. */
  method EditScenario() returns (afterErase: seq<int>, afterInsert: seq<int>, afterPop: seq<int>)
    ensures afterErase == [1, 3]
    ensures afterInsert == [1, 9, 3]
    ensures afterPop == [1, 9]
  {
    var v := new Vector<int>();
    v.PushBack(1);
    v.PushBack(2);
    v.PushBack(3);
    v.Erase(1);
    afterErase := v.Elements();
    v.Insert(1, 9);
    afterInsert := v.Elements();
    v.PopBack();
    afterPop := v.Elements();
  }

  /** Inserting at an offset and then erasing at that offset gives back the elements. */
  method InsertThenErase(v: Vector<int>, d: nat, x: int)
    requires v.Valid() && d <= v.size
    requires !v.ctorInitialized || v.capacity > 0
    modifies v, v.values
    ensures v.Valid() && v.Contents() == old(v.Contents())
  {
    v.Insert(d, x);
    v.Erase(d);
    SpliceThenRemove(old(v.Contents()), d, [x]);
  }

  /** Five zeros resized to eight with fill value 7. */
  method ResizeScenario() returns (s: seq<int>)
    ensures s == [0, 0, 0, 0, 0, 7, 7, 7]
  {
    var v := new Vector.Filled(5, 0);
    v.ResizeFill(8, 7);
    s := v.Elements();
  }

  /** A copy compares equal to its source, and appending to another copy leaves the source
      (and the first copy) as they were. */
  method CopiesAreIndependent(src: Vector<int>, x: int) returns (firstEqual: bool, secondEqual: bool)
    requires src.Valid()
    ensures firstEqual && !secondEqual
  {
    var first := new Vector.Copy(src);
    var second := new Vector.Copy(src);
    second.PushBack(x);
    firstEqual := Equal(src, first);
    secondEqual := Equal(src, second);
  }

  /** Copy assignment: build the by-value parameter as a copy, then assign from it. */
  method CopyAssign(dst: Vector<int>, src: Vector<int>)
    requires dst.Valid() && src.Valid() && dst != src
    modifies dst
    ensures dst.Valid() && dst.Contents() == src.Contents()
    ensures unchanged(src)
  {
    var temp := new Vector.Copy(src);
    dst.Assign(temp);
  }

  /** Moving out of a container hands its elements over and leaves it empty. */
  method MoveOut(src: Vector<int>) returns (dst: Vector<int>)
    requires src.Valid()
    modifies src
    ensures dst.Valid() && src.Valid()
    ensures dst.Contents() == old(src.Contents())
    ensures src.Contents() == [] && src.Capacity() == 0 && src.values == null
  {
    dst := new Vector.Move(src);
  }

  /** Swapping twice restores both containers. */
  method SwapTwice(a: Vector<int>, b: Vector<int>)
    requires a.Valid() && b.Valid()
    modifies a, b
    ensures a.values == old(a.values) && a.size == old(a.size) && a.capacity == old(a.capacity)
    ensures b.values == old(b.values) && b.size == old(b.size) && b.capacity == old(b.capacity)
    ensures a.ctorInitialized == old(a.ctorInitialized) && b.ctorInitialized == old(b.ctorInitialized)
  {
    a.Swap(b);
    a.Swap(b);
  }
}
