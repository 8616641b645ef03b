/**
 Handing a range of pages to the buddy allocator at boot, as the largest aligned blocks that fit.
 */
module BuddyBoot {

  import opened Arithmetic
  import opened BuddyBlocks

  /** Every block put into the range so far is the largest that fits its place. */
  ghost predicate Largest(h: Heads, start: nat, end: nat) {
    forall q :: start <= q < |h| && q < end && 0 <= h[q] < MAX_ORDER ==> !Fits(q, h[q] + 1, end)
  }

  predicate Fits(p: nat, o: nat, end: nat) {
    Aligned(p, o) && p + Pow2(o) <= end
  }

  /** No free block has its buddy inside the range. */
  ghost predicate NoBuddyIn(h: Heads, start: nat, end: nat) {
    forall b :: 0 <= b < |h| && 0 <= h[b] < MAX_ORDER ==> !(start <= Buddy(b, h[b]) && Buddy(b, h[b]) + Pow2(h[b]) <= end)
  }

  ghost predicate NoneFree(h: Heads, from: int, to: int) {
    forall x :: from <= x < to ==> !Covered(h, x)
  }

  /** The pages from `start` to `cur` have been added to those of `h0`. */
  ghost predicate Filling(h0: Heads, h: Heads, start: nat, cur: nat, end: nat) {
    WellFormed(h) && |h| == |h0| && start <= cur <= end <= |h| && Largest(h, start, end)
    && NoneFree(h, cur, end)
    && (forall q :: 0 <= q < |h| && (q < start || end <= q) ==> h[q] == h0[q])
  }

  lemma {:induction false} FillStart(h: Heads, start: nat, end: nat)
    requires WellFormed(h) && start <= end <= |h| && NoneFree(h, start, end)
    ensures Filling(h, h, start, start, end)
  {
    forall q | start <= q < |h| && q < end ensures h[q] < 0 {
      if h[q] >= 0 { assert Covers(h, q, q); assert Covered(h, q); }
    }
  }

  lemma {:induction false} LargestHasNoBuddy(h0: Heads, h: Heads, start: nat, cur: nat, end: nat, o: nat)
    requires Filling(h0, h, start, cur, end) && NoBuddyIn(h0, start, end)
    requires cur < end && Fits(cur, o, end) && o < MAX_ORDER
    ensures !Free(h, Buddy(cur, o), o)
  {
    var b := Buddy(cur, o);
    BuddyHalves(cur, o);
    assert start <= b < cur ==> Fits(b, o + 1, end);
    assert cur <= b < end ==> !Covered(h, b);
    assert cur <= b < end ==> !Covers(h, b, b);
    assert b < |h| && (b < start || end <= b) ==> h0[b] == h[b];
    assert Buddy(b, o) == cur;
  }

  /** The free pages of `g` are those of `h` and the pages from `a` to `b`. */
  ghost predicate Adds(h: Heads, g: Heads, a: int, b: int) {
    forall x :: Covered(g, x) <==> Covered(h, x) || a <= x < b
  }

  lemma {:induction false} AddsMore(h: Heads, g: Heads, g': Heads, a: int, b: int, c: int)
    requires Adds(h, g, a, b) && Adds(g, g', b, c) && a <= b <= c
    ensures Adds(h, g', a, c)
  {
    hide Covered;
  }

  lemma {:induction false} AddsNothing(h: Heads, a: int)
    ensures Adds(h, h, a, a)
  {
    hide Covered;
  }

  /** Adding the largest block that fits adds exactly its pages, and keeps the set coalesced unless the
      range has a buddy outside. */
  lemma {:induction false} FillStep(h0: Heads, h: Heads, start: nat, cur: nat, end: nat, o: nat)
    requires Filling(h0, h, start, cur, end) && cur < end && o <= MAX_ORDER && Fits(cur, o, end)
    requires o < MAX_ORDER ==> !Fits(cur, o + 1, end)
    ensures h[cur] == -1 && Filling(h0, h[cur := o], start, cur + Pow2(o), end)
    ensures Adds(h, h[cur := o], cur, cur + Pow2(o))
    ensures NoBuddyIn(h0, start, end) && Coalesced(h) ==> Coalesced(h[cur := o])
  {
    hide WellFormed, Coalesced, Covered, NoBuddyIn, Buddy, Aligned;
    assert Unused(h, cur, o) by {
      forall x | InBlock(cur, o, x) ensures !Covered(h, x) { }
    }
    Insert(h, cur, o);
    InsertPages(h, cur, o);
    if NoBuddyIn(h0, start, end) && Coalesced(h) {
      if o < MAX_ORDER { LargestHasNoBuddy(h0, h, start, cur, end, o); }
      InsertCoalesced(h, cur, o);
    }
    assert forall x :: InBlock(cur, o, x) <==> cur <= x < cur + Pow2(o);
  }

  /** A free block whose buddy lies in the range is left beside it, uncoalesced. */
  lemma {:induction false} BuddyInRange(h0: Heads, h: Heads, start: nat, end: nat)
    requires WellFormed(h0) && NoneFree(h0, start, end) && Filling(h0, h, start, end, end)
    requires Adds(h0, h, start, end)
    requires !NoBuddyIn(h0, start, end)
    ensures !Coalesced(h)
  {
    var b :| 0 <= b < |h0| && 0 <= h0[b] < MAX_ORDER && start <= Buddy(b, h0[b]) && Buddy(b, h0[b]) + Pow2(h0[b]) <= end;
    var o := h0[b];
    var a := Buddy(b, o);
    BuddyHalves(b, o);
    if start <= b < end { assert Covers(h0, b, b); assert Covered(h0, b); }
    assert h[b] == o;
    if Coalesced(h) {
      var p := CoveredRangeIsOneBlock(h, a, o);
      ParentHolds(h, p, a, b, o);
    }
  }

  /** A block that contains the buddy of a free block of order `o` is that buddy. */
  lemma {:induction false} ParentHolds(h: Heads, p: nat, a: nat, b: nat, o: nat)
    requires WellFormed(h) && Contains(h, p, a, o) && 0 <= b < |h| && h[b] == o && a == Buddy(b, o) && Aligned(b, o)
    ensures p == a && h[a] == o
  {
    BuddyHalves(b, o);
    var low := if a < b then a else b;
    if h[p] > o {
      Nested(low, o + 1, p, h[p]);
    } else {
      AlignedGap2(p, a, o);
    }
  }

  lemma {:induction false} AlignedGap2(p: nat, a: nat, o: nat)
    requires p <= a && a + Pow2(o) <= p + Pow2(o)
    ensures p == a
  {
  }
}
