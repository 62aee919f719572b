/** The two capacity policies of the container: the one `emplace_back` applies when the
    block is full, and the power-of-two one single-element `erase` rebuilds into. */
module Growth {

  /** Below this many elements a non-filling container grows by one slot at a time. */
  const LINEAR_LIMIT: nat := 8

  /** The capacity `emplace_back` moves to when `n` live elements fill a block of `n` slots.
      A container built by a filling constructor (or grown by `resize`) always doubles;
      any other grows 0 to 1, then by one slot below LINEAR_LIMIT, then doubles. */
  function Grown(n: nat, filling: bool): (r: nat)
  {
    if filling then 2 * n
    else if n == 0 then 1
    else if n < LINEAR_LIMIT then n + 1
    else 2 * n
  }

  /** Growth makes room for the next element, except for a filling container whose
      block is empty: doubling 0 leaves it at 0. */
  lemma GrowthMakesRoom(n: nat, filling: bool)
    ensures Grown(n, filling) > n <==> !filling || n > 0
  {
  }

  /** `2^k`. */
  function Pow2(k: nat): (r: nat)
    ensures r >= 1
  {
    if k == 0 then 1 else 2 * Pow2(k - 1)
  }

  lemma {:induction false} Pow2Monotone(i: nat, j: nat)
    requires i < j
    ensures Pow2(i) < Pow2(j)
  {
    if i + 1 < j {
      Pow2Monotone(i, j - 1);
    }
  }

  /** The least exponent `k >= 2` with `n <= 2^k`, found by halving `n`. */
  function CoverExp(n: nat): (k: nat)
  {
    if n <= 4 then 2 else CoverExp((n + 1) / 2) + 1
  }

  /** CoverExp(n) is the least exponent from 2 on whose power of two holds `n` elements. */
  lemma {:induction false} CoverExpIsLeast(n: nat)
    ensures CoverExp(n) >= 2
    ensures n <= Pow2(CoverExp(n))
    ensures forall j :: 2 <= j < CoverExp(n) ==> Pow2(j) < n
  {
    if n > 4 {
      var m := (n + 1) / 2;
      CoverExpIsLeast(m);
      var e := CoverExp(m);
      forall j | 2 <= j < e + 1 ensures Pow2(j) < n {
        if j > 2 {
          assert Pow2(j - 1) < m;
        }
      }
    }
  }

  /** The capacity single-element `erase` leaves for `n` remaining elements. */
  function ErasedCapacity(n: nat): (c: nat)
  {
    if n == 0 then 0 else Pow2(CoverExp(n))
  }

  /** The erase capacity holds every remaining element, is at least 4, and is less
      than twice the element count once it is above 4: it never more than doubles. */
  lemma ErasedCapacityBounds(n: nat)
    requires n > 0
    ensures n <= ErasedCapacity(n)
    ensures 4 <= ErasedCapacity(n)
    ensures ErasedCapacity(n) == 4 || ErasedCapacity(n) < 2 * n
  {
    CoverExpIsLeast(n);
    var e := CoverExp(n);
    if e > 2 {
      assert Pow2(e - 1) < n;
    } else {
      assert Pow2(2) == 4;
    }
    if e > 2 {
      Pow2Monotone(2, e);
    }
  }

  /** The exponent search in single-element `erase`: starting at 2, step up while `2^inc`
      is still smaller than the element count. */
  method SmallestCoveringExponent(n: nat) returns (inc: nat)
    ensures inc == CoverExp(n)
    ensures n <= Pow2(inc)
  {
    CoverExpIsLeast(n);
    inc := 2;
    while n > Pow2(inc)
      invariant 2 <= inc <= CoverExp(n)
      decreases CoverExp(n) - inc
    {
      inc := inc + 1;
    }
  }
}
