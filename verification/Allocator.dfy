/// What both block allocators promise, in terms of the set of free blocks.

module Allocator {
  datatype Taken = NoBlock | Block(number: nat)

  /// No block exactly when none is free; otherwise a free block, which no longer is.
  ghost predicate Allocates(free: set<nat>, free': set<nat>, r: Taken) {
    && (r.NoBlock? <==> free == {})
    && (r.NoBlock? ==> free' == free)
    && (r.Block? ==> r.number in free && free' == free - {r.number})
  }

  /// A block that was not free now is.
  ghost predicate Frees(free: set<nat>, free': set<nat>, b: nat) {
    b !in free && free' == free + {b}
  }

  // ---------- sets of block numbers ----------

  ghost function Below(n: nat): (r: set<nat>)
    ensures forall k: nat :: k in r <==> k < n
  {
    if n == 0 then {} else Below(n - 1) + {n - 1}
  }

  lemma {:induction false} BelowSize(n: nat)
    ensures |Below(n)| == n
  {
    if n > 0 {
      BelowSize(n - 1);
    }
  }

  lemma SubsetSize(a: set<nat>, b: set<nat>)
    requires a <= b
    ensures |a| <= |b|
    ensures |a| == |b| ==> a == b
  {
    assert b == a + (b - a);
    assert |b| == |a| + |b - a|;
  }
}
