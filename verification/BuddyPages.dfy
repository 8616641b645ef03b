/**
 How many pages are free: the per-order block counters of the buddy allocator, weighted by block
 size, against the set of pages that the free blocks cover.
 */
module BuddyPages {

  import opened Arithmetic
  import opened BuddyBlocks

  ghost function FreePages(h: Heads): set<int> {
    set x | 0 <= x < |h| && Covered(h, x)
  }

  function Interval(a: int, n: nat): (r: set<int>)
    ensures |r| == n && forall x :: x in r <==> a <= x < a + n
    decreases n
  {
    if n == 0 then {} else {a} + Interval(a + 1, n - 1)
  }

  /** The pages of the block of order `o` at `p`. */
  function BlockPages(p: int, o: nat): (r: set<int>)
    ensures |r| == Pow2(o) && forall x :: x in r <==> InBlock(p, o, x)
  {
    Interval(p, Pow2(o))
  }

  // ----- by block -----

  /** The sizes of the free blocks that start before `n`. */
  function Weights(h: Heads, n: nat): nat
    requires n <= |h|
  {
    if n == 0 then 0 else Weights(h, n - 1) + (if h[n - 1] < 0 then 0 else Pow2(h[n - 1]))
  }

  /** Their pages. */
  function PagesBefore(h: Heads, n: nat): set<int>
    requires n <= |h|
  {
    if n == 0 then {}
    else PagesBefore(h, n - 1) + (if h[n - 1] < 0 then {} else BlockPages(n - 1, h[n - 1]))
  }

  lemma {:induction false} PagesBeforeCovered(h: Heads, n: nat, x: int)
    requires n <= |h|
    ensures x in PagesBefore(h, n) <==> exists p :: 0 <= p < n && Covers(h, p, x)
  {
    hide Pow2;
    if n > 0 {
      PagesBeforeCovered(h, n - 1, x);
      if Covers(h, n - 1, x) {
        assert x in BlockPages(n - 1, h[n - 1]);
      } else {
        assert h[n - 1] < 0 || x !in BlockPages(n - 1, h[n - 1]);
      }
    }
  }

  lemma {:induction false} WeightsArePages(h: Heads, n: nat)
    requires WellFormed(h) && n <= |h|
    ensures Weights(h, n) == |PagesBefore(h, n)|
  {
    hide Pow2;
    if n > 0 {
      WeightsArePages(h, n - 1);
      if h[n - 1] >= 0 {
        var b := BlockPages(n - 1, h[n - 1]);
        forall x | x in PagesBefore(h, n - 1) ensures x !in b { PagesBeforeCovered(h, n - 1, x); }
        assert PagesBefore(h, n - 1) !! b;
      }
    }
  }

  // ----- by order -----

  /** The counters of the orders below `o`, weighted. */
  function Orders(h: Heads, o: nat): nat {
    if o == 0 then 0 else Orders(h, o - 1) + CountOf(h, o - 1) * Pow2(o - 1)
  }

  lemma {:induction false} OrdersStep(h: Heads, o: nat)
    requires h != []
    ensures var n := |h| - 1;
            Orders(h, o) == Orders(h[..n], o) + (if 0 <= h[n] < o then Pow2(h[n]) else 0)
  {
    hide Pow2;
    if o > 0 {
      OrdersStep(h, o - 1);
      var c, w := CountOf(h[..|h| - 1], o - 1), Pow2(o - 1);
      Distribute(c, 1, w);
    }
  }

  lemma {:induction false} NoOrders(o: nat)
    ensures Orders([], o) == 0
  {
    if o > 0 { NoOrders(o - 1); }
  }

  lemma {:induction false} OrdersAreWeights(h: Heads, n: nat)
    requires n <= |h| && forall p :: 0 <= p < |h| ==> h[p] <= MAX_ORDER
    ensures Orders(h[..n], MAX_ORDER + 1) == Weights(h, n)
  {
    hide Orders, Pow2;
    if n == 0 {
      NoOrders(MAX_ORDER + 1);
      assert h[..n] == [];
    } else {
      OrdersStep(h[..n], MAX_ORDER + 1);
      assert h[..n][..n - 1] == h[..n - 1];
      OrdersAreWeights(h, n - 1);
    }
  }

  // ----- the results -----

  /** The weighted counters are the number of free pages. */
  lemma {:induction false} CountersArePages(h: Heads)
    requires WellFormed(h)
    ensures Orders(h, MAX_ORDER + 1) == |FreePages(h)|
  {
    hide Orders, Weights, PagesBefore, Pow2;
    OrdersAreWeights(h, |h|);
    assert h[..|h|] == h;
    WeightsArePages(h, |h|);
    forall x ensures x in PagesBefore(h, |h|) <==> x in FreePages(h) {
      PagesBeforeCovered(h, |h|, x);
      if p :| 0 <= p < |h| && Covers(h, p, x) { assert p + Pow2(h[p]) <= |h|; }
    }
    assert PagesBefore(h, |h|) == FreePages(h);
  }

  /** An allocation takes exactly its own pages from the free pages. */
  lemma {:induction false} TakeConserves(h: Heads, p: nat, to: nat)
    requires WellFormed(h) && Head(h, p) && to <= h[p]
    ensures var g := Take(h, p, to);
            FreePages(h) == FreePages(g) + BlockPages(p, to) && FreePages(g) !! BlockPages(p, to)
            && |FreePages(g)| == |FreePages(h)| - Pow2(to)
  {
    hide Take, Pow2, Covered, Coalesced;
    TakeSound(h, p, to);
    var g := Take(h, p, to);
    HolePages(g, p, to);
    assert FreePages(h) == FreePages(g) + BlockPages(p, to);
  }

  /** Freeing a block adds exactly its own pages. */
  lemma {:induction false} MergeConserves(h: Heads, p: nat, o: nat)
    requires Hole(h, p, o)
    ensures var g := Merge(h, p, o);
            FreePages(g) == FreePages(h) + BlockPages(p, o) && FreePages(h) !! BlockPages(p, o)
            && |FreePages(g)| == |FreePages(h)| + Pow2(o)
  {
    hide Merge, Pow2, Covered, WellFormed, Coalesced;
    HolePages(h, p, o);
    HoleHead(h, p, o);
    MergeSound(h, p, o);
    var g := Merge(h, p, o);
    assert FreePages(g) == FreePages(h) + BlockPages(p, o);
  }

  lemma {:induction false} HolePages(h: Heads, p: nat, o: nat)
    requires Hole(h, p, o)
    ensures FreePages(h) !! BlockPages(p, o) && p + Pow2(o) <= |h|
  {
    hide Pow2, Covered, WellFormed, Coalesced;
    forall x | x in BlockPages(p, o) ensures x !in FreePages(h) {
      assert InBlock(p, o, x);
    }
  }
}
