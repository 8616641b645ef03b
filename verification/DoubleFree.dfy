/**
 Freeing pages that are free already: when the buddy allocator notices, and what happens otherwise.
 */
module DoubleFree {

  import opened Arithmetic
  import opened BuddyBlocks

  /** On the way up, at order `k`, the block that has `p` as its first page meets a free buddy below it. */
  ghost predicate MeetsBelow(h: Heads, p: nat, o: nat, k: nat) {
    o <= k < MAX_ORDER && Aligned(p, k) && !Aligned(p, k + 1) && Free(h, p - Pow2(k), k)
    && forall j :: o <= j < k ==> Free(h, p + Pow2(j), j)
  }

  /** Freeing the block merges it into one that begins before it. */
  ghost predicate MergesDown(h: Heads, p: nat, o: nat) {
    exists k: nat :: MeetsBelow(h, p, o, k)
  }

  lemma {:induction false} NotBelow(h: Heads, p: nat, o: nat)
    requires Aligned(p, o) && o <= MAX_ORDER && (o < MAX_ORDER ==> !Free(h, Buddy(p, o), o))
    ensures !MergesDown(h, p, o)
  {
    hide Aligned, Buddy, Pow2;
    BuddyHalves(p, o);
    forall k: nat ensures !MeetsBelow(h, p, o, k) {
      if o < k < MAX_ORDER && Aligned(p, k) {
        AlignedLower(p, o + 1, k);
        assert !Free(h, p + Pow2(o), o);
      }
    }
  }

  lemma {:induction false} Distinct(o: nat, j: nat)
    requires o < j
    ensures Pow2(o) < Pow2(j)
  {
    Pow2Grows(o + 1, j);
  }

  /** Merging upwards with the buddy above changes nothing about what is met later. */
  lemma {:induction false} MeetsLater(h: Heads, p: nat, o: nat, k: nat)
    requires Aligned(p, o + 1) && o < MAX_ORDER && Free(h, p + Pow2(o), o)
    ensures MeetsBelow(h, p, o, k) <==> MeetsBelow(h[p + Pow2(o) := -1], p, o + 1, k)
  {
    hide Aligned, Pow2;
    var h' := h[p + Pow2(o) := -1];
    if o < k < MAX_ORDER {
      forall j | o < j < k ensures Free(h, p + Pow2(j), j) <==> Free(h', p + Pow2(j), j) { Distinct(o, j); }
      assert Free(h, p - Pow2(k), k) <==> Free(h', p - Pow2(k), k);
    }
  }

  lemma {:induction false} AboveThenBelow(h: Heads, p: nat, o: nat)
    requires Aligned(p, o + 1) && o < MAX_ORDER && Free(h, p + Pow2(o), o)
    ensures MergesDown(h, p, o) <==> MergesDown(h[p + Pow2(o) := -1], p, o + 1)
  {
    hide Aligned, Pow2, MeetsBelow;
    var h' := h[p + Pow2(o) := -1];
    if MergesDown(h, p, o) {
      var k: nat :| MeetsBelow(h, p, o, k);
      MeetsLater(h, p, o, k);
    }
    if MergesDown(h', p, o + 1) {
      var k: nat :| MeetsBelow(h', p, o + 1, k);
      MeetsLater(h, p, o, k);
    }
  }

  /** A second free of a block is noticed if and only if the first one did not merge it downwards. */
  lemma {:induction false} SecondFreeNoticed(h: Heads, p: nat, o: nat)
    requires Hole(h, p, o)
    ensures |Merge(h, p, o)| == |h| && (Head(Merge(h, p, o), p) <==> !MergesDown(h, p, o))
    decreases MAX_ORDER - o
  {
    hide WellFormed, Coalesced, Unused, Aligned, Buddy, Covered, MergesDown, Merge, Pow2;
    var b := Buddy(p, o);
    MergeSound(h, p, o);
    BuddyHalves(p, o);
    MergeTurn(h, p, o);
    if o < MAX_ORDER && Free(h, b, o) {
      if p < b {
        MergeStep(h, p, o);
        SecondFreeNoticed(h[b := -1], p, o + 1);
        AboveThenBelow(h, p, o);
      } else {
        MergedBelow(h, p, o);
      }
    } else {
      NotBelow(h, p, o);
    }
  }

  lemma {:induction false} MergedBelow(h: Heads, p: nat, o: nat)
    requires Hole(h, p, o) && o < MAX_ORDER && Free(h, Buddy(p, o), o) && Buddy(p, o) < p
    ensures MergesDown(h, p, o) && !Head(Merge(h, p, o), p)
  {
    hide WellFormed, Unused, Buddy, Merge;
    var b := Buddy(p, o);
    BuddyHalves(p, o);
    assert MeetsBelow(h, p, o, o);
    HoleHead(h, p, o);
    MergeTurn(h, p, o);
    MergeClears(h[b := -1], b, o + 1, p);
  }

  // ----- when it is not noticed -----

  /** A block inside the freed one keeps its place below a larger block that overlaps it. */
  lemma {:induction false} InnerStays(h: Heads, p: nat, o: nat, q: nat)
    requires o <= MAX_ORDER && Aligned(p, o) && p < q < p + Pow2(o) && q < |h| && h[q] >= 0
    ensures var g := Merge(h, p, o); |g| == |h| && g[q] == h[q] && exists r :: 0 <= r < q && g[r] >= 0 && q < r + Pow2(g[r])
    decreases MAX_ORDER - o
  {
    hide Aligned, Buddy;
    var b := Buddy(p, o);
    if o < MAX_ORDER && Free(h, b, o) {
      BuddyHalves(p, o);
      InnerStays(h[b := -1], if p < b then p else b, o + 1, q);
    } else {
      assert h[p := o][p] == o;
    }
  }

  /** A block inside a larger free block finds no free buddy. */
  lemma {:induction false} NoBuddyInside(h: Heads, p: nat, o: nat, q: nat)
    requires WellFormed(h) && Aligned(p, o) && Head(h, q) && h[q] > o && q <= p && p + Pow2(o) <= q + Pow2(h[q])
    ensures !Free(h, Buddy(p, o), o)
  {
    hide Aligned, Buddy, Pow2;
    var b := Buddy(p, o);
    BuddyHalves(p, o);
    var low := if p < b then p else b;
    Halves(o);
    assert Aligned(q, h[q]);
    Nested(low, o + 1, q, h[q]);
  }

  /** Freeing a block, some page of which is free but which does not begin a free block, breaks the
      set: two free blocks overlap. */
  lemma {:induction false} OverlapBreaks(h: Heads, p: nat, o: nat)
    requires WellFormed(h) && Spot(h, p, o) && !Unused(h, p, o)
    ensures !WellFormed(Merge(h, p, o))
  {
    var x :| InBlock(p, o, x) && Covered(h, x);
    var q :| Covers(h, q, x);
    if h[q] >= o {
      Nested(p, o, q, h[q]);
      assert h[q] != o;
      NoBuddyInside(h, p, o, q);
      assert h[p := o][q] == h[q] && h[p := o][p] == o;
    } else {
      Nested(q, h[q], p, o);
      InnerStays(h, p, o, q);
    }
  }

  /** A free that is not refused keeps the free blocks apart if and only if none of its pages was free. */
  lemma {:induction false} FreeSoundIff(h: Heads, p: nat, o: nat)
    requires WellFormed(h) && Spot(h, p, o)
    ensures WellFormed(Merge(h, p, o)) <==> Unused(h, p, o)
  {
    hide WellFormed, Unused, Merge, Aligned;
    if Unused(h, p, o) { MergeSound(h, p, o); } else { OverlapBreaks(h, p, o); }
  }

  /** A second free that is not noticed puts a block inside a free one. */
  lemma {:induction false} UnnoticedBreaks(h: Heads, p: nat, o: nat)
    requires Hole(h, p, o) && MergesDown(h, p, o)
    ensures var g := Merge(h, p, o); |g| == |h| && !Head(g, p) && !WellFormed(Merge(g, p, o))
  {
    hide Coalesced, Aligned, Buddy, Covered, Merge, MergesDown;
    SecondFreeNoticed(h, p, o);
    MergeSound(h, p, o);
    var g := Merge(h, p, o);
    assert InBlock(p, o, p) && Covered(g, p);
    assert Spot(g, p, o);
    OverlapBreaks(g, p, o);
  }

  /** The smallest such case: with page 0 free, page 1 freed twice. */
  lemma {:induction false} PageOneTwice(h: Heads)
    requires |h| >= 2 && h[0] == 0 && Hole(h, 1, 0)
    ensures MergesDown(h, 1, 0)
  {
    assert Aligned(1, 0) && !Aligned(1, 1) && Free(h, 0, 0);
    assert MeetsBelow(h, 1, 0, 0);
  }
}
