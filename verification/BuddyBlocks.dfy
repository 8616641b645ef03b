/**
 The free blocks of a binary buddy allocator, as a map over page indices.

 `heads[p]` is the order of the free block that starts at page `p`, or -1. A set of blocks in
 which no two buddies are free together is determined by the pages it covers; it follows that
 coalescing on every free leaves no request unserved for want of merging, and that freeing a block
 undoes its allocation.
 */
module BuddyBlocks {

  import opened Arithmetic

  const MAX_ORDER := 10

  /** The low `o` bits of the index are zero. */
  predicate Aligned(p: nat, o: nat) {
    o == 0 || (p % 2 == 0 && Aligned(p / 2, o - 1))
  }

  /** The index with bit `o` flipped. */
  function Buddy(p: nat, o: nat): nat {
    if o > 0 then 2 * Buddy(p / 2, o - 1) + p % 2
    else if p % 2 == 0 then p + 1 else p - 1
  }

  // ----- arithmetic of aligned blocks -----

  lemma {:induction false} AlignedGap(p: nat, n: nat, o: nat)
    requires Aligned(p, o) && Aligned(n, o) && p < n
    ensures p + Pow2(o) <= n
  {
    if o > 0 { AlignedGap(p / 2, n / 2, o - 1); }
  }

  lemma {:induction false} AlignedNext(p: nat, o: nat)
    requires Aligned(p, o)
    ensures Aligned(p + Pow2(o), o)
  {
    if o > 0 { AlignedNext(p / 2, o - 1); }
  }

  lemma {:induction false} AlignedLower(p: nat, o: nat, r: nat)
    requires Aligned(p, r) && o <= r
    ensures Aligned(p, o)
  {
    if o > 0 { AlignedLower(p / 2, o - 1, r - 1); }
  }

  /** Two blocks overlap only if one lies inside the other. */
  lemma {:induction false} Nested(p: nat, o: nat, q: nat, r: nat)
    requires Aligned(p, o) && Aligned(q, r) && o <= r && q < p + Pow2(o) && p < q + Pow2(r)
    ensures q <= p && p + Pow2(o) <= q + Pow2(r)
  {
    AlignedLower(q, o, r);
    AlignedNext(q, r);
    AlignedLower(q + Pow2(r), o, r);
    AlignedGap(p, q + Pow2(r), o);
    if p < q { AlignedGap(p, q, o); }
  }

  /** An aligned block and its buddy are the two halves of the aligned block one order up. */
  lemma {:induction false} BuddyHalves(p: nat, o: nat)
    requires Aligned(p, o)
    ensures if Aligned(p, o + 1) then Buddy(p, o) == p + Pow2(o)
            else Buddy(p, o) + Pow2(o) == p && Aligned(Buddy(p, o), o + 1)
    ensures Aligned(Buddy(p, o), o) && Buddy(Buddy(p, o), o) == p
  {
    hide Aligned, Buddy;
    if o == 0 {
      SinglePages(p);
    } else {
      var q := p / 2;
      EvenIfAligned(p, o);
      BuddyHalves(q, o - 1);
      var c := Buddy(q, o - 1);
      Doubled(q, o - 1);
      Doubled(q, o);
      Doubled(c, o - 1);
      Doubled(c, o);
    }
  }

  lemma {:induction false} EvenIfAligned(p: nat, o: nat)
    requires Aligned(p, o) && o > 0
    ensures p == 2 * (p / 2) && Aligned(p / 2, o - 1)
  {
  }

  lemma {:induction false} Doubled(q: nat, o: nat)
    ensures Aligned(2 * q, o + 1) == Aligned(q, o) && Buddy(2 * q, o + 1) == 2 * Buddy(q, o)
  {
    assert 2 * q / 2 == q && 2 * q % 2 == 0;
  }

  lemma {:induction false} SinglePages(p: nat)
    ensures Aligned(p, 0) && (Aligned(p, 1) <==> p % 2 == 0)
    ensures Buddy(p, 0) == if p % 2 == 0 then p + 1 else p - 1
    ensures var b := Buddy(p, 0); Aligned(b, 0) && (Aligned(b, 1) <==> b % 2 == 0) && Buddy(b, 0) == p
  {
  }

  // ----- sets of free blocks -----

  type Heads = seq<int>

  predicate Head(h: Heads, p: int) {
    0 <= p < |h| && h[p] >= 0
  }

  ghost predicate WellFormed(h: Heads) {
    (forall p :: 0 <= p < |h| ==> -1 <= h[p] <= MAX_ORDER)
    && (forall p :: 0 <= p < |h| && h[p] >= 0 ==> Aligned(p, h[p]) && p + Pow2(h[p]) <= |h|)
    && (forall p, q :: 0 <= p < q < |h| && h[p] >= 0 && h[q] >= 0 ==> p + Pow2(h[p]) <= q)
  }

  /** No two buddies are free at the same order, except at the largest. */
  ghost predicate Coalesced(h: Heads) {
    forall p :: 0 <= p < |h| && 0 <= h[p] < MAX_ORDER ==> !Free(h, Buddy(p, h[p]), h[p])
  }

  /** The block of order `o` at `p` is free as a whole and on its own. */
  predicate Free(h: Heads, p: int, o: nat) {
    0 <= p < |h| && h[p] == o
  }

  /** Page `x` is inside some free block. */
  ghost predicate Covered(h: Heads, x: int) {
    exists p :: Covers(h, p, x)
  }

  predicate Covers(h: Heads, p: int, x: int) {
    0 <= p < |h| && h[p] >= 0 && p <= x < p + Pow2(h[p])
  }

  /** The pages of the block of order `o` at `p`. */
  predicate InBlock(p: int, o: nat, x: int) {
    p <= x < p + Pow2(o)
  }

  // ----- a coalesced set is determined by its pages -----

  /** One free block, of order at least `k`, contains the range of order `k` at `a`. */
  predicate Contains(h: Heads, p: int, a: nat, k: nat) {
    Head(h, p) && h[p] >= k && p <= a && a + Pow2(k) <= p + Pow2(h[p])
  }

  /** The halves of a range are in one block, for else they would be two free buddies. */
  lemma {:induction false} JoinHalves(h: Heads, a: nat, k: nat, lo: nat, hi: nat)
    requires WellFormed(h) && Coalesced(h) && k < MAX_ORDER && Aligned(a, k + 1)
    requires Contains(h, lo, a, k) && Contains(h, hi, a + Pow2(k), k)
    ensures Contains(h, lo, a, k + 1) || Contains(h, hi, a, k + 1)
  {
    hide WellFormed, Coalesced, Aligned, Buddy, Pow2;
    AlignedHeads(h, lo, hi);
    Halves(k);
    if h[lo] > k {
      Nested(a, k + 1, lo, h[lo]);
    } else if h[hi] > k {
      Nested(a, k + 1, hi, h[hi]);
    } else {
      NotBothHalves(h, a, k);
    }
  }

  lemma {:induction false} NotBothHalves(h: Heads, a: nat, k: nat)
    requires Coalesced(h) && k < MAX_ORDER && Aligned(a, k + 1)
    ensures !Free(h, a, k) || !Free(h, a + Pow2(k), k)
  {
    hide Aligned, Buddy;
    AlignedLower(a, k, k + 1);
    BuddyHalves(a, k);
  }

  lemma {:induction false} AlignedHeads(h: Heads, p: nat, q: nat)
    requires WellFormed(h) && Head(h, p) && Head(h, q)
    ensures Aligned(p, h[p]) && Aligned(q, h[q])
  {
  }

  lemma {:induction false} Halves(o: nat)
    ensures Pow2(o + 1) == Pow2(o) + Pow2(o)
  {
  }

  /** If every page of an aligned range is free, one free block contains the range. */
  lemma {:induction false} CoveredRangeIsOneBlock(h: Heads, a: nat, k: nat) returns (p: nat)
    requires WellFormed(h) && Coalesced(h) && k <= MAX_ORDER && Aligned(a, k)
    requires forall x :: InBlock(a, k, x) ==> Covered(h, x)
    ensures Contains(h, p, a, k)
    decreases k
  {
    hide WellFormed, Coalesced, Covered, Contains;
    if k == 0 {
      p := CoveredPage(h, a);
    } else {
      AlignedLower(a, k - 1, k);
      AlignedNext(a, k - 1);
      assert forall x :: InBlock(a, k - 1, x) || InBlock(a + Pow2(k - 1), k - 1, x) ==> InBlock(a, k, x);
      var lo := CoveredRangeIsOneBlock(h, a, k - 1);
      var hi := CoveredRangeIsOneBlock(h, a + Pow2(k - 1), k - 1);
      JoinHalves(h, a, k - 1, lo, hi);
      p := if Contains(h, lo, a, k) then lo else hi;
    }
  }

  lemma {:induction false} CoveredPage(h: Heads, a: nat) returns (p: nat)
    requires WellFormed(h) && forall x :: InBlock(a, 0, x) ==> Covered(h, x)
    ensures Contains(h, p, a, 0)
  {
    assert InBlock(a, 0, a);
    p :| Covers(h, p, a);
  }

  lemma {:induction false} SameBlock(h: Heads, g: Heads, p: nat)
    requires WellFormed(h) && WellFormed(g) && Coalesced(h) && Coalesced(g) && |h| == |g|
    requires forall x :: Covered(h, x) <==> Covered(g, x)
    requires Head(h, p)
    ensures g[p] == h[p]
  {
    forall x | InBlock(p, h[p], x) ensures Covered(g, x) { assert Covers(h, p, x); assert Covered(h, x); }
    var q := CoveredRangeIsOneBlock(g, p, h[p]);
    forall x | InBlock(q, g[q], x) ensures Covered(h, x) { assert Covers(g, q, x); assert Covered(g, x); }
    var r := CoveredRangeIsOneBlock(h, q, g[q]);
    assert r <= q <= p;
  }

  /** Two coalesced sets of blocks that cover the same pages are the same set. */
  lemma {:induction false} Canonical(h: Heads, g: Heads)
    requires WellFormed(h) && WellFormed(g) && Coalesced(h) && Coalesced(g) && |h| == |g|
    requires forall x :: Covered(h, x) <==> Covered(g, x)
    ensures h == g
  {
    forall p | 0 <= p < |h| ensures h[p] == g[p] {
      if Head(h, p) { SameBlock(h, g, p); }
      if Head(g, p) { SameBlock(g, h, p); }
    }
  }

  // ----- inserting and deleting a block -----

  /** No page of the block of order `o` at `p` is free. */
  ghost predicate Unused(h: Heads, p: nat, o: nat) {
    forall x :: InBlock(p, o, x) ==> !Covered(h, x)
  }

  ghost predicate SamePagesBut(h: Heads, g: Heads, p: nat, o: nat) {
    forall x :: !InBlock(p, o, x) ==> (Covered(h, x) <==> Covered(g, x))
  }

  lemma {:induction false} Apart(h: Heads, p: nat, o: nat, q: nat)
    requires Unused(h, p, o) && Head(h, q)
    ensures q != p && (q < p ==> q + Pow2(h[q]) <= p) && (p < q ==> p + Pow2(o) <= q)
  {
    if q <= p < q + Pow2(h[q]) {
      assert InBlock(p, o, p) && Covers(h, q, p) && Covered(h, p);
    }
    if p <= q < p + Pow2(o) {
      assert InBlock(p, o, q) && Covers(h, q, q) && Covered(h, q);
    }
  }

  lemma {:induction false} InsertPages(h: Heads, p: nat, o: nat)
    requires p < |h| && h[p] == -1
    ensures var g := h[p := o];
            SamePagesBut(h, g, p, o) && forall x :: InBlock(p, o, x) ==> Covered(g, x)
  {
    var g := h[p := o];
    forall x | InBlock(p, o, x) ensures Covered(g, x) { assert Covers(g, p, x); }
    forall x | !InBlock(p, o, x) ensures Covered(h, x) <==> Covered(g, x) {
      forall q ensures Covers(h, q, x) <==> Covers(g, q, x) { }
    }
  }

  lemma {:induction false} Insert(h: Heads, p: nat, o: nat)
    requires WellFormed(h) && o <= MAX_ORDER && Aligned(p, o) && p + Pow2(o) <= |h| && Unused(h, p, o)
    ensures h[p] == -1 && WellFormed(h[p := o])
  {
    if h[p] >= 0 { Apart(h, p, o, p); }
    forall q | 0 <= q < |h| && h[q] >= 0 ensures q != p && (q < p ==> q + Pow2(h[q]) <= p) && (p < q ==> p + Pow2(o) <= q) {
      Apart(h, p, o, q);
    }
  }

  lemma {:induction false} InsertCoalesced(h: Heads, p: nat, o: nat)
    requires WellFormed(h) && Coalesced(h) && p < |h| && Aligned(p, o) && (o < MAX_ORDER ==> !Free(h, Buddy(p, o), o))
    ensures Coalesced(h[p := o])
  {
    var g := h[p := o];
    BuddyHalves(p, o);
    forall q | 0 <= q < |g| && 0 <= g[q] < MAX_ORDER ensures !Free(g, Buddy(q, g[q]), g[q]) {
      BuddyHalves(q, g[q]);
      assert q != p ==> g[q] == h[q] && !Free(h, Buddy(q, h[q]), h[q]);
    }
  }

  lemma {:induction false} Delete(h: Heads, p: nat)
    requires WellFormed(h) && Head(h, p)
    ensures var g := h[p := -1];
            WellFormed(g) && Unused(g, p, h[p]) && SamePagesBut(h, g, p, h[p]) && (Coalesced(h) ==> Coalesced(g))
  {
    hide WellFormed, Coalesced, Unused, SamePagesBut;
    DeleteFormed(h, p);
    DeletePages(h, p);
    if Coalesced(h) { DeleteCoalesced(h, p); }
  }

  lemma {:induction false} DeleteFormed(h: Heads, p: nat)
    requires WellFormed(h) && Head(h, p)
    ensures WellFormed(h[p := -1])
  {
    hide Pow2, Aligned;
  }

  lemma {:induction false} DeletePages(h: Heads, p: nat)
    requires WellFormed(h) && Head(h, p)
    ensures Unused(h[p := -1], p, h[p]) && SamePagesBut(h, h[p := -1], p, h[p])
  {
    hide Pow2, Aligned;
    var g := h[p := -1];
    forall x | InBlock(p, h[p], x) ensures !Covered(g, x) {
      assert forall q :: Covers(g, q, x) ==> Covers(h, q, x);
    }
    forall x | !InBlock(p, h[p], x) ensures Covered(h, x) <==> Covered(g, x) {
      forall q ensures Covers(h, q, x) <==> Covers(g, q, x) { }
    }
  }

  lemma {:induction false} DeleteCoalesced(h: Heads, p: nat)
    requires Coalesced(h) && p < |h|
    ensures Coalesced(h[p := -1])
  {
    hide Buddy;
    var g := h[p := -1];
    forall q | 0 <= q < |g| && 0 <= g[q] < MAX_ORDER ensures !Free(g, Buddy(q, g[q]), g[q]) {
      assert g[q] == h[q] && !Free(h, Buddy(q, h[q]), h[q]);
    }
  }

  /** A set with an unused, aligned block of order `o` at `p`. */
  ghost predicate Hole(h: Heads, p: nat, o: nat) {
    WellFormed(h) && o <= MAX_ORDER && Aligned(p, o) && p + Pow2(o) <= |h| && Unused(h, p, o)
  }

  lemma {:induction false} HoleHead(h: Heads, p: nat, o: nat)
    requires Hole(h, p, o)
    ensures p < |h| && h[p] == -1
  {
    if h[p] >= 0 { Apart(h, p, o, p); }
  }

  // ----- allocation: split a block down to the requested order -----

  /** Put the upper halves of an unused block of order `from` back, down to order `to`. */
  function Split(h: Heads, p: nat, from: nat, to: nat): Heads
    requires to <= from && p + Pow2(from) <= |h|
    decreases from
  {
    if from == to then h
    else Split(h[p + Pow2(from - 1) := from - 1], p, from - 1, to)
  }

  /** Take the free block at `p` out and split it down to order `to`. */
  function Take(h: Heads, p: nat, to: nat): Heads
    requires Head(h, p) && to <= h[p] && p + Pow2(h[p]) <= |h|
  {
    Split(h[p := -1], p, h[p], to)
  }

  /** One split: the upper half becomes a free block, the lower half stays unused. */
  lemma {:induction false} SplitStep(h: Heads, p: nat, o: nat)
    requires Hole(h, p, o + 1)
    ensures p + Pow2(o) < |h| && h[p + Pow2(o)] == -1
    ensures var g := h[p + Pow2(o) := o];
            Hole(g, p, o) && (Coalesced(h) ==> Coalesced(g))
            && forall x :: !InBlock(p, o, x) ==> (Covered(g, x) <==> Covered(h, x) || InBlock(p, o + 1, x))
  {
    hide WellFormed, Coalesced, Covered, Aligned, Buddy;
    var u := p + Pow2(o);
    UpperHalf(h, p, o);
    Insert(h, u, o);
    if Coalesced(h) { InsertCoalesced(h, u, o); }
    InsertPages(h, u, o);
  }

  lemma {:induction false} UpperHalf(h: Heads, p: nat, o: nat)
    requires Hole(h, p, o + 1)
    ensures var u := p + Pow2(o);
            Aligned(p, o) && Aligned(u, o) && u + Pow2(o) <= |h| && Unused(h, u, o) && Buddy(u, o) == p && h[p] < 0
            && (forall x :: InBlock(p, o, x) || InBlock(u, o, x) <==> InBlock(p, o + 1, x))
  {
    hide WellFormed, Covered, Aligned, Buddy;
    var u := p + Pow2(o);
    AlignedLower(p, o, o + 1);
    AlignedNext(p, o);
    BuddyHalves(p, o);
    HoleHead(h, p, o + 1);
    assert forall x :: InBlock(p, o, x) || InBlock(u, o, x) <==> InBlock(p, o + 1, x);
  }

  lemma {:induction false} SplitSound(h: Heads, p: nat, from: nat, to: nat)
    requires Hole(h, p, from) && to <= from
    ensures var g := Split(h, p, from, to);
            Hole(g, p, to) && |g| == |h| && (Coalesced(h) ==> Coalesced(g))
            && forall x :: !InBlock(p, to, x) ==> (Covered(g, x) <==> Covered(h, x) || InBlock(p, from, x))
    decreases from
  {
    hide Hole, Covered, Coalesced;
    if to < from {
      SplitStep(h, p, from - 1);
      Pow2Grows(to, from - 1);
      SplitSound(h[p + Pow2(from - 1) := from - 1], p, from - 1, to);
    }
  }

  /** Taking a block removes exactly its `2^to` pages from the free pages, and keeps the set coalesced
      if it was. */
  lemma {:induction false} TakeSound(h: Heads, p: nat, to: nat)
    requires WellFormed(h) && Head(h, p) && to <= h[p]
    ensures var g := Take(h, p, to);
            Hole(g, p, to) && |g| == |h| && (Coalesced(h) ==> Coalesced(g))
            && forall x :: !InBlock(p, to, x) ==> (Covered(g, x) <==> Covered(h, x))
    ensures forall x :: InBlock(p, to, x) ==> Covered(h, x)
  {
    Delete(h, p);
    SplitSound(h[p := -1], p, h[p], to);
    Pow2Grows(to, h[p]);
    forall x | InBlock(p, h[p], x) ensures Covered(h, x) { assert Covers(h, p, x); }
  }

  // ----- freeing: merge with the buddy as long as it is free -----

  function Merge(h: Heads, p: nat, o: nat): Heads
    requires p < |h|
    decreases MAX_ORDER - o
  {
    var b := Buddy(p, o);
    if o < MAX_ORDER && Free(h, b, o)
    then Merge(h[b := -1], if p < b then p else b, o + 1)
    else h[p := o]
  }

  lemma {:induction false} MergeTurn(h: Heads, p: nat, o: nat)
    requires p < |h|
    ensures var b := Buddy(p, o);
            Merge(h, p, o) == if o < MAX_ORDER && Free(h, b, o) then Merge(h[b := -1], if p < b then p else b, o + 1) else h[p := o]
  {
    hide Buddy;
  }

  /** One merge: the buddy is taken out and the unused block grows to their parent. */
  lemma {:induction false} MergeStep(h: Heads, p: nat, o: nat)
    requires Hole(h, p, o) && o < MAX_ORDER && Free(h, Buddy(p, o), o)
    ensures var b := Buddy(p, o); var low := if p < b then p else b; var g := h[b := -1];
            Hole(g, low, o + 1) && (Coalesced(h) ==> Coalesced(g))
            && forall x :: Covered(g, x) || InBlock(low, o + 1, x) <==> Covered(h, x) || InBlock(p, o, x)
  {
    hide WellFormed, Coalesced, Covered, Aligned, Buddy;
    var b := Buddy(p, o);
    BuddyFree(h, p, o);
    Delete(h, b);
  }

  lemma {:induction false} BuddyFree(h: Heads, p: nat, o: nat)
    requires Hole(h, p, o) && o < MAX_ORDER && Free(h, Buddy(p, o), o)
    ensures var b := Buddy(p, o); var low := if p < b then p else b;
            Aligned(low, o + 1) && low + Pow2(o + 1) <= |h|
            && (forall x :: InBlock(low, o + 1, x) <==> InBlock(p, o, x) || InBlock(b, o, x))
            && (forall x :: InBlock(b, o, x) ==> Covered(h, x))
  {
    var b := Buddy(p, o);
    BuddyHalves(p, o);
    forall x | InBlock(b, o, x) ensures Covered(h, x) { assert Covers(h, b, x); }
    assert b + Pow2(o) <= |h|;
  }

  /** Freeing a block adds exactly its pages to the free pages, and keeps the set coalesced if it was. */
  lemma {:induction false} MergeSound(h: Heads, p: nat, o: nat)
    requires Hole(h, p, o)
    ensures var g := Merge(h, p, o);
            WellFormed(g) && |g| == |h| && (Coalesced(h) ==> Coalesced(g))
            && forall x :: Covered(g, x) <==> Covered(h, x) || InBlock(p, o, x)
    decreases MAX_ORDER - o
  {
    hide WellFormed, Coalesced, Covered, Unused;
    var b := Buddy(p, o);
    if o < MAX_ORDER && Free(h, b, o) {
      MergeStep(h, p, o);
      MergeSound(h[b := -1], if p < b then p else b, o + 1);
    } else {
      Insert(h, p, o);
      if Coalesced(h) { InsertCoalesced(h, p, o); }
      InsertPages(h, p, o);
    }
  }

  /** A page inside the freed block that begins no block begins none afterwards. */
  lemma {:induction false} MergeClears(h: Heads, p: nat, o: nat, q: nat)
    requires Aligned(p, o) && p < q < p + Pow2(o) && q < |h| && h[q] < 0
    ensures q < |Merge(h, p, o)| && Merge(h, p, o)[q] < 0
    decreases MAX_ORDER - o
  {
    hide Aligned, Buddy;
    var b := Buddy(p, o);
    if o < MAX_ORDER && Free(h, b, o) {
      BuddyHalves(p, o);
      MergeClears(h[b := -1], if p < b then p else b, o + 1, q);
    }
  }

  /** A place for a block of order `o` at `p`, which is not the head of a free block. */
  predicate Spot(h: Heads, p: nat, o: nat) {
    o <= MAX_ORDER && Aligned(p, o) && p + Pow2(o) <= |h| && h[p] < 0
  }

  /** Every free block is inside the page array. */
  predicate HeadsFit(h: Heads) {
    forall p :: 0 <= p < |h| && h[p] >= 0 ==> p + Pow2(h[p]) <= |h|
  }

  /** Merging with a free buddy leaves a place for their parent. */
  lemma {:induction false} SpotGrows(h: Heads, p: nat, o: nat)
    requires Spot(h, p, o) && HeadsFit(h) && o < MAX_ORDER && Free(h, Buddy(p, o), o)
    ensures var b := Buddy(p, o); b != p && HeadsFit(h[b := -1]) && Spot(h[b := -1], if p < b then p else b, o + 1)
  {
    hide Buddy;
    BuddyHalves(p, o);
  }

  /** On the way up the buddy's record lies outside the page array. */
  predicate LeavesArray(h: Heads, p: nat, o: nat)
    decreases MAX_ORDER - o
  {
    var b := Buddy(p, o);
    o < MAX_ORDER && (b >= |h| || (h[b] == o && LeavesArray(h[b := -1], if p < b then p else b, o + 1)))
  }

  /** The index with its low `j` bits cleared: where the block of order `j` around the page begins. */
  function Down(p: nat, j: nat): nat {
    if j == 0 then p else 2 * Down(p / 2, j - 1)
  }

  lemma {:induction false} DownAligned(p: nat, j: nat)
    ensures Aligned(Down(p, j), j) && (Aligned(p, j) ==> Down(p, j) == p)
  {
    if j > 0 {
      DownAligned(p / 2, j - 1);
      Doubled(Down(p / 2, j - 1), j - 1);
    }
  }

  lemma {:induction false} DownDown(p: nat, i: nat, j: nat)
    requires i <= j
    ensures Down(Down(p, i), j) == Down(p, j)
    decreases i
  {
    if i > 0 { DownDown(p / 2, i - 1, j - 1); }
  }

  /** A block and its buddy begin their parent. */
  lemma {:induction false} DownNext(p: nat, o: nat)
    requires Aligned(p, o)
    ensures var b := Buddy(p, o); Down(p, o + 1) == if p < b then p else b
  {
    hide Aligned, Buddy;
    if o == 0 {
      SinglePages(p);
      assert Down(p, 1) == 2 * (p / 2);
    } else {
      EvenIfAligned(p, o);
      DownNext(p / 2, o - 1);
      Doubled(p / 2, o - 1);
    }
  }

  /** At order `k` the buddy's record lies outside the page array, after free buddies at all orders
      from `o` up to there. */
  ghost predicate OutsideAt(h: Heads, p: nat, o: nat, k: nat) {
    o <= k < MAX_ORDER && Buddy(Down(p, k), k) >= |h|
    && forall j :: o <= j < k ==> Free(h, Buddy(Down(p, j), j), j)
  }

  /** Freeing the block looks at a record outside the page array. */
  ghost predicate MeetsEnd(h: Heads, p: nat, o: nat) {
    exists k: nat :: OutsideAt(h, p, o, k)
  }

  /** Which is what happens on the way up. */
  lemma {:induction false} LeavesIff(h: Heads, p: nat, o: nat)
    requires Aligned(p, o)
    ensures LeavesArray(h, p, o) <==> MeetsEnd(h, p, o)
    decreases MAX_ORDER - o
  {
    hide Aligned, Buddy, Down, MeetsEnd, OutsideAt;
    var b := Buddy(p, o);
    DownAligned(p, o);
    if o >= MAX_ORDER || b >= |h| || h[b] != o {
      EndsHere(h, p, o);
    } else {
      var low := if p < b then p else b;
      DownNext(p, o);
      DownAligned(p, o + 1);
      LeavesIff(h[b := -1], low, o + 1);
      EndsLater(h, p, o);
    }
  }

  lemma {:induction false} EndsHere(h: Heads, p: nat, o: nat)
    requires Down(p, o) == p && (o >= MAX_ORDER || Buddy(p, o) >= |h| || h[Buddy(p, o)] != o)
    ensures MeetsEnd(h, p, o) <==> o < MAX_ORDER && Buddy(p, o) >= |h|
  {
    hide Aligned, Buddy, Down;
    if o < MAX_ORDER && Buddy(p, o) >= |h| { assert OutsideAt(h, p, o, o); }
    forall k: nat | OutsideAt(h, p, o, k) ensures o < MAX_ORDER && Buddy(p, o) >= |h| {
      if k > o { assert Free(h, Buddy(Down(p, o), o), o); }
    }
  }

  lemma {:induction false} EndsLater(h: Heads, p: nat, o: nat)
    requires o < MAX_ORDER && Down(p, o) == p && Free(h, Buddy(p, o), o)
    ensures MeetsEnd(h, p, o) <==> MeetsEnd(h[Buddy(p, o) := -1], Down(p, o + 1), o + 1)
  {
    hide Aligned, Buddy, Down, OutsideAt;
    var h', q := h[Buddy(p, o) := -1], Down(p, o + 1);
    if MeetsEnd(h, p, o) {
      var k: nat :| OutsideAt(h, p, o, k);
      OutsideLater(h, p, o, k);
    }
    if MeetsEnd(h', q, o + 1) {
      var k: nat :| OutsideAt(h', q, o + 1, k);
      OutsideLater(h, p, o, k);
    }
  }

  lemma {:induction false} OutsideLater(h: Heads, p: nat, o: nat, k: nat)
    requires o < MAX_ORDER && Down(p, o) == p && Free(h, Buddy(p, o), o)
    ensures OutsideAt(h, p, o, k) <==> OutsideAt(h[Buddy(p, o) := -1], Down(p, o + 1), o + 1, k)
  {
    hide Aligned, Buddy, Down;
    var b := Buddy(p, o);
    var h', q := h[b := -1], Down(p, o + 1);
    forall j | o < j ensures Down(q, j) == Down(p, j) { DownDown(p, o + 1, j); }
    forall j | o < j < k ensures Free(h, Buddy(Down(p, j), j), j) <==> Free(h', Buddy(Down(q, j), j), j) { }
    if OutsideAt(h', q, o + 1, k) {
      forall j | o <= j < k ensures Free(h, Buddy(Down(p, j), j), j) { }
    }
  }

  /** A page array of whole blocks of the largest order is never left. */
  lemma {:induction false} NeverLeaves(h: Heads, p: nat, o: nat)
    requires Aligned(|h|, MAX_ORDER) && Spot(h, p, o) && HeadsFit(h)
    ensures !LeavesArray(h, p, o)
    decreases MAX_ORDER - o
  {
    hide Aligned, Buddy, HeadsFit;
    if o < MAX_ORDER {
      BuddyInside(h, p, o);
      var b := Buddy(p, o);
      if h[b] == o {
        SpotGrows(h, p, o);
        NeverLeaves(h[b := -1], if p < b then p else b, o + 1);
      }
    }
  }

  lemma {:induction false} BuddyInside(h: Heads, p: nat, o: nat)
    requires Aligned(|h|, MAX_ORDER) && Spot(h, p, o) && o < MAX_ORDER
    ensures Buddy(p, o) + Pow2(o) <= |h|
  {
    hide Buddy;
    BuddyHalves(p, o);
    if Aligned(p, o + 1) {
      AlignedLower(|h|, o + 1, MAX_ORDER);
      AlignedGap(p, |h|, o + 1);
    }
  }

  // ----- counting blocks -----

  function CountOf(h: Heads, o: nat): nat {
    if h == [] then 0 else CountOf(h[..|h| - 1], o) + (if h[|h| - 1] == o then 1 else 0)
  }

  lemma {:induction false} CountUpdate(h: Heads, p: nat, v: int, o: nat)
    requires p < |h|
    ensures CountOf(h[p := v], o) == CountOf(h, o) - (if h[p] == o then 1 else 0) + (if v == o then 1 else 0)
  {
    var n := |h| - 1;
    if p == n {
      assert h[p := v][..n] == h[..n];
    } else {
      assert h[p := v][..n] == h[..n][p := v];
      CountUpdate(h[..n], p, v, o);
    }
  }

  lemma {:induction false} CountNone(h: Heads, o: nat)
    requires forall p :: 0 <= p < |h| ==> h[p] != o
    ensures CountOf(h, o) == 0
  {
    if h != [] { CountNone(h[..|h| - 1], o); }
  }

  // ----- the results -----

  /** Merging a block back puts the halves together that splitting had made of it. */
  lemma {:induction false} MergeUndoesSplit(h: Heads, p: nat, from: nat, to: nat)
    requires Hole(h, p, from) && to <= from
    ensures p < |h| && |Split(h, p, from, to)| == |h| && Merge(Split(h, p, from, to), p, to) == Merge(h, p, from)
    decreases from
  {
    hide Hole, Covered, Coalesced, Merge, Pow2;
    HoleHead(h, p, from);
    if to < from {
      var o := from - 1;
      var u := p + Pow2(o);
      SplitStep(h, p, o);
      HalvesMeet(h, p, o);
      MergeUndoesSplit(h[u := o], p, o, to);
    }
  }

  /** The lower half finds the upper half, its buddy, and becomes the whole. */
  lemma {:induction false} HalvesMeet(h: Heads, p: nat, o: nat)
    requires Hole(h, p, o + 1)
    ensures var u := p + Pow2(o);
            p < |h| && u < |h| && Merge(h[u := o], p, o) == Merge(h, p, o + 1)
  {
    hide WellFormed, Unused, Aligned, Buddy, Pow2;
    var u := p + Pow2(o);
    UpperHalf(h, p, o);
    HoleHead(h, u, o);
    LowerBuddy(h, p, o);
    assert h[u := o][u := -1] == h;
  }

  lemma {:induction false} LowerBuddy(h: Heads, p: nat, o: nat)
    requires Hole(h, p, o + 1)
    ensures Buddy(p, o) == p + Pow2(o) && o < MAX_ORDER
  {
    hide WellFormed, Unused, Buddy;
    AlignedLower(p, o, o + 1);
    BuddyHalves(p, o);
  }

  /** Freeing an allocated block restores the very same set of free blocks if and only if the block it
      was taken from had no free buddy of its own order. */
  lemma {:induction false} FreeUndoesTake(h: Heads, p: nat, to: nat)
    requires WellFormed(h) && Head(h, p) && to <= h[p]
    ensures |Take(h, p, to)| == |h|
    ensures Merge(Take(h, p, to), p, to) == h <==> h[p] == MAX_ORDER || !Free(h, Buddy(p, h[p]), h[p])
  {
    hide WellFormed, Unused, Covered, Aligned, Buddy, Split, Merge, Pow2;
    Delete(h, p);
    HeadFacts(h, p);
    MergeUndoesSplit(h[p := -1], p, h[p], to);
    FreeWhole(h, p);
  }

  lemma {:induction false} FreeWhole(h: Heads, p: nat)
    requires WellFormed(h) && Head(h, p)
    ensures Merge(h[p := -1], p, h[p]) == h <==> h[p] == MAX_ORDER || !Free(h, Buddy(p, h[p]), h[p])
  {
    hide WellFormed, Merge, Buddy, Aligned;
    var g, o := h[p := -1], h[p];
    HeadFacts(h, p);
    BuddyHalves(p, o);
    var b := Buddy(p, o);
    MergeTurn(g, p, o);
    if o < MAX_ORDER && Free(h, b, o) {
      var low, high := if p < b then p else b, if p < b then b else p;
      MergeClears(g[b := -1], low, o + 1, high);
    } else {
      assert g[p := o] == h;
    }
  }

  lemma {:induction false} HeadFacts(h: Heads, p: nat)
    requires WellFormed(h) && Head(h, p)
    ensures h[p] <= MAX_ORDER && Aligned(p, h[p]) && p + Pow2(h[p]) <= |h|
  {
  }

  /** So it always does in a coalesced set. */
  lemma {:induction false} FreeRestores(h: Heads, p: nat, to: nat)
    requires WellFormed(h) && Coalesced(h) && Head(h, p) && to <= h[p]
    ensures |Take(h, p, to)| == |h| && Merge(Take(h, p, to), p, to) == h
  {
    hide Merge, Take, Buddy;
    FreeUndoesTake(h, p, to);
  }

  /** A request for `2^k` pages can be served exactly when some aligned run of `2^k` pages is free. */
  lemma {:induction false} ServedIffRangeFree(h: Heads, k: nat)
    requires WellFormed(h) && Coalesced(h) && k <= MAX_ORDER
    ensures (exists p :: Head(h, p) && h[p] >= k)
       <==> (exists a: nat :: Aligned(a, k) && forall x :: InBlock(a, k, x) ==> Covered(h, x))
  {
    if p :| Head(h, p) && h[p] >= k {
      TakeSound(h, p, k);
      assert Aligned(p, k);
    }
    if a: nat :| Aligned(a, k) && forall x :: InBlock(a, k, x) ==> Covered(h, x) {
      var p := CoveredRangeIsOneBlock(h, a, k);
      assert Head(h, p) && h[p] >= k;
    }
  }
}
