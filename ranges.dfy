/** The in-place range routines the container rewrites its buffer with: fill, copy into a
    fresh block, move a run up (highest index first) and move a run down (lowest first). */
module Ranges {

  /** Writes `v` into every slot of `[lo, hi)` and nowhere else. */
  method Fill<T>(a: array<T>, lo: nat, hi: nat, v: T)
    requires lo <= hi <= a.Length
    modifies a
    ensures forall k :: 0 <= k < a.Length ==> a[k] == (if lo <= k < hi then v else old(a[k]))
  {
    var i := lo;
    while i < hi
      invariant lo <= i <= hi
      invariant forall k :: 0 <= k < a.Length ==> a[k] == (if lo <= k < i then v else old(a[k]))
    {
      a[i] := v;
      i := i + 1;
    }
  }

  /** Copies the first `n` slots of `src` into the first `n` slots of another block. */
  method CopyPrefix<T>(src: array<T>, dst: array<T>, n: nat)
    requires n <= src.Length && n <= dst.Length && src != dst
    modifies dst
    ensures forall k :: 0 <= k < dst.Length ==> dst[k] == (if k < n then src[k] else old(dst[k]))
  {
    var i := 0;
    while i < n
      invariant i <= n
      invariant forall k :: 0 <= k < dst.Length ==> dst[k] == (if k < i then src[k] else old(dst[k]))
    {
      dst[i] := src[i];
      i := i + 1;
    }
  }

  /** Moves the run `[first, last)` up by `shift` slots, starting from its last element so
      that no element is overwritten before it has been moved; slots outside the target
      run keep their values. */
  method MoveBackward<T>(a: array<T>, first: nat, last: nat, shift: nat)
    requires first <= last && last + shift <= a.Length
    modifies a
    ensures forall k :: 0 <= k < a.Length ==>
      a[k] == (if first + shift <= k < last + shift then old(a[k - shift]) else old(a[k]))
  {
    var i := last;
    while i > first
      invariant first <= i <= last
      invariant forall k :: 0 <= k < a.Length ==>
        a[k] == (if i + shift <= k < last + shift then old(a[k - shift]) else old(a[k]))
    {
      i := i - 1;
      a[i + shift] := a[i];
    }
  }

  /** Moves the run `[last, stop)` down to start at `first`, starting from its first
      element; slots outside the target run keep their values. */
  method MoveDown<T>(a: array<T>, first: nat, last: nat, stop: nat)
    requires first <= last <= stop <= a.Length
    modifies a
    ensures forall k :: 0 <= k < a.Length ==>
      a[k] == (if first <= k < first + (stop - last) then old(a[k + (last - first)]) else old(a[k]))
  {
    var j := 0;
    while last + j < stop
      invariant last + j <= stop
      invariant forall k :: 0 <= k < a.Length ==>
        a[k] == (if first <= k < first + j then old(a[k + (last - first)]) else old(a[k]))
    {
      a[first + j] := a[last + j];
      j := j + 1;
    }
  }
}
