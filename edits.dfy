/** Sequence edits: the reference definitions of what the container's mutators do to
    its live elements, and the facts about them that the mutators' clients rely on. */
module Edits {

  /** `n` copies of `v`: the run a fill writes. */
  function Repeat<T>(v: T, n: nat): (r: seq<T>)
    ensures |r| == n
    ensures forall i :: 0 <= i < n ==> r[i] == v
  {
    if n == 0 then [] else [v] + Repeat(v, n - 1)
  }

  /** `s` with `run` opened up at offset `d`: everything from `d` on moves up by `|run|`. */
  function Splice<T>(s: seq<T>, d: nat, run: seq<T>): (r: seq<T>)
    requires d <= |s|
    ensures |r| == |s| + |run|
    ensures forall i :: 0 <= i < d ==> r[i] == s[i]
    ensures forall i :: 0 <= i < |run| ==> r[d + i] == run[i]
    ensures forall i :: d <= i < |s| ==> r[i + |run|] == s[i]
  {
    s[..d] + run + s[d..]
  }

  /** `s` without the run `[lo, hi)`: everything from `hi` on moves down by `hi - lo`. */
  function RemoveRange<T>(s: seq<T>, lo: nat, hi: nat): (r: seq<T>)
    requires lo <= hi <= |s|
    ensures |r| == |s| - (hi - lo)
    ensures forall i :: 0 <= i < lo ==> r[i] == s[i]
    ensures forall i :: hi <= i < |s| ==> r[i - (hi - lo)] == s[i]
  {
    s[..lo] + s[hi..]
  }

  /** The live elements after a resize to `n` that fills new slots with `v`. */
  function Resized<T>(s: seq<T>, n: nat, v: T): (r: seq<T>)
    ensures |r| == n
    ensures forall i :: 0 <= i < n && i < |s| ==> r[i] == s[i]
    ensures forall i :: |s| <= i < n ==> r[i] == v
  {
    if n <= |s| then s[..n] else s + Repeat(v, n - |s|)
  }

  /** Opening a run and then removing the same run gives back the original sequence. */
  lemma SpliceThenRemove<T>(s: seq<T>, d: nat, run: seq<T>)
    requires d <= |s|
    ensures RemoveRange(Splice(s, d, run), d, d + |run|) == s
  {
  }

  /** Removing one element and putting it back at the same offset gives back the original. */
  lemma RemoveThenSplice<T>(s: seq<T>, d: nat)
    requires d < |s|
    ensures Splice(RemoveRange(s, d, d + 1), d, [s[d]]) == s
  {
  }
}
