/**
 The physical page allocator: per-order free lists, doubly linked through the page records, over
 the block sets of `BuddyBlocks`. The spin lock makes each method one atomic step.
 */
module BuddyAllocator {

  import opened Bytes
  import opened Arithmetic
  import opened BuddyBlocks
  import opened BuddyBoot
  import opened BuddyPages
  import opened DoubleFree

  const NONE := -1

  /** The per-page record: list links, and the order of the free block that starts here. */
  datatype Page = Page(next: int, prev: int, isFree: bool, order: nat)

  /** What the links are measured against: ranks grow from the head of a list to its end, and no
      rank in use is below `floor`. */
  datatype Ranks = Ranks(rank: seq<int>, floor: int)

  function HeadsOf(pages: seq<Page>): (h: Heads)
    ensures |h| == |pages|
    ensures forall p :: 0 <= p < |h| ==> h[p] == if pages[p].isFree then pages[p].order else -1
  {
    seq(|pages|, p requires 0 <= p < |pages| => if pages[p].isFree then pages[p].order else -1)
  }

  /** `q` follows `p` in the list of order `o`. */
  predicate Follows(pages: seq<Page>, r: Ranks, p: int, q: int)
    requires |r.rank| == |pages| && 0 <= p < |pages|
  {
    0 <= q < |pages| && pages[q].isFree && pages[q].order == pages[p].order && r.rank[p] < r.rank[q]
  }

  predicate NextOk(pages: seq<Page>, r: Ranks, p: int)
    requires |r.rank| == |pages| && 0 <= p < |pages|
  {
    pages[p].next == NONE || (Follows(pages, r, p, pages[p].next) && pages[pages[p].next].prev == p)
  }

  predicate PrevOk(first: seq<int>, pages: seq<Page>, r: Ranks, p: int)
    requires |r.rank| == |pages| && 0 <= p < |pages| && pages[p].order < |first|
  {
    if pages[p].prev == NONE then first[pages[p].order] == p
    else 0 <= pages[p].prev < |pages| && pages[pages[p].prev].isFree
         && Follows(pages, r, pages[p].prev, p) && pages[pages[p].prev].next == p
  }

  predicate FirstOk(first: seq<int>, pages: seq<Page>, o: nat)
    requires o < |first|
  {
    first[o] == NONE
    || (0 <= first[o] < |pages| && pages[first[o]].isFree && pages[first[o]].order == o && pages[first[o]].prev == NONE)
  }

  /** The records are doubly linked lists, one per order, of exactly the free blocks of that order. */
  ghost predicate Linked(first: seq<int>, pages: seq<Page>, r: Ranks) {
    |first| == MAX_ORDER + 1 && |r.rank| == |pages|
    && (forall o :: 0 <= o < |first| ==> FirstOk(first, pages, o))
    && (forall p :: 0 <= p < |pages| && pages[p].isFree ==>
          pages[p].order <= MAX_ORDER && r.floor <= r.rank[p] && NextOk(pages, r, p) && PrevOk(first, pages, r, p))
  }

  // ----- the list operations -----

  /** Put `p` in front of the list of order `o` and mark it the head of a free block. */
  function Prepended(first: seq<int>, pages: seq<Page>, o: nat, p: nat): seq<Page>
    requires o < |first| && p < |pages| && first[o] < |pages|
  {
    var pages1 := pages[p := Page(first[o], NONE, true, o)];
    if first[o] < 0 then pages1 else pages1[first[o] := pages1[first[o]].(prev := p)]
  }

  function Pushed(r: Ranks, p: nat): Ranks
    requires p < |r.rank|
  {
    Ranks(r.rank[p := r.floor - 1], r.floor - 1)
  }

  lemma {:induction false} PrependLinked(first: seq<int>, pages: seq<Page>, r: Ranks, o: nat, p: nat)
    requires Linked(first, pages, r) && o <= MAX_ORDER && p < |pages| && !pages[p].isFree
    ensures NONE <= first[o] < |pages| && |r.rank| == |pages|
    ensures Linked(first[o := p], Prepended(first, pages, o, p), Pushed(r, p))
    ensures HeadsOf(Prepended(first, pages, o, p)) == HeadsOf(pages)[p := o]
  {
    assert FirstOk(first, pages, o);
    var ps, r', f := Prepended(first, pages, o, p), Pushed(r, p), first[o := p];
    forall q | 0 <= q < |ps| && ps[q].isFree
      ensures ps[q].order <= MAX_ORDER && r'.floor <= r'.rank[q] && NextOk(ps, r', q) && PrevOk(f, ps, r', q)
    {
      assert q != p ==> pages[q].isFree && NextOk(pages, r, q) && PrevOk(first, pages, r, q);
    }
    forall o' | 0 <= o' < |f| ensures FirstOk(f, ps, o') { assert FirstOk(first, pages, o'); }
    assert HeadsOf(ps) == HeadsOf(pages)[p := o];
  }

  /** Take `p` out of its list and unmark it. */
  function Unlinked(pages: seq<Page>, p: nat): seq<Page>
    requires p < |pages| && pages[p].next < |pages| && pages[p].prev < |pages|
  {
    var prev, next := pages[p].prev, pages[p].next;
    var pages1 := if prev >= 0 then pages[prev := pages[prev].(next := next)] else pages;
    var pages2 := if next >= 0 then pages1[next := pages1[next].(prev := prev)] else pages1;
    pages2[p := pages2[p].(next := NONE, prev := NONE, isFree := false)]
  }

  function FirstWithout(first: seq<int>, pages: seq<Page>, p: nat): seq<int>
    requires p < |pages| && pages[p].order < |first|
  {
    if pages[p].prev >= 0 then first else first[pages[p].order := pages[p].next]
  }

  lemma {:induction false} UnlinkBounds(first: seq<int>, pages: seq<Page>, r: Ranks, p: nat)
    requires Linked(first, pages, r) && p < |pages| && pages[p].isFree
    ensures NONE <= pages[p].next < |pages| && NONE <= pages[p].prev < |pages| && pages[p].order <= MAX_ORDER
    ensures |Unlinked(pages, p)| == |pages| && |FirstWithout(first, pages, p)| == |first|
    ensures HeadsOf(Unlinked(pages, p)) == HeadsOf(pages)[p := -1]
  {
    assert NextOk(pages, r, p) && PrevOk(first, pages, r, p);
    assert HeadsOf(Unlinked(pages, p)) == HeadsOf(pages)[p := -1];
  }

  lemma {:induction false} UnlinkNext(first: seq<int>, pages: seq<Page>, r: Ranks, p: nat, q: nat)
    requires Linked(first, pages, r) && p < |pages| && pages[p].isFree && q < |pages| && q != p && pages[q].isFree
    requires NONE <= pages[p].next < |pages| && NONE <= pages[p].prev < |pages| && pages[p].order <= MAX_ORDER
    ensures NextOk(Unlinked(pages, p), r, q)
  {
    assert NextOk(pages, r, p) && PrevOk(first, pages, r, p) && NextOk(pages, r, q);
  }

  lemma {:induction false} UnlinkPrev(first: seq<int>, pages: seq<Page>, r: Ranks, p: nat, q: nat)
    requires Linked(first, pages, r) && p < |pages| && pages[p].isFree && q < |pages| && q != p && pages[q].isFree
    requires NONE <= pages[p].next < |pages| && NONE <= pages[p].prev < |pages| && pages[p].order <= MAX_ORDER
    ensures pages[q].order <= MAX_ORDER && PrevOk(FirstWithout(first, pages, p), Unlinked(pages, p), r, q)
  {
    assert NextOk(pages, r, p) && PrevOk(first, pages, r, p) && PrevOk(first, pages, r, q);
  }

  lemma {:induction false} UnlinkLinked(first: seq<int>, pages: seq<Page>, r: Ranks, p: nat)
    requires Linked(first, pages, r) && p < |pages| && pages[p].isFree
    ensures NONE <= pages[p].next < |pages| && NONE <= pages[p].prev < |pages| && pages[p].order <= MAX_ORDER
    ensures Linked(FirstWithout(first, pages, p), Unlinked(pages, p), r)
    ensures HeadsOf(Unlinked(pages, p)) == HeadsOf(pages)[p := -1]
  {
    hide NextOk, PrevOk, FirstOk, Unlinked, FirstWithout;
    UnlinkBounds(first, pages, r, p);
    var ps, f := Unlinked(pages, p), FirstWithout(first, pages, p);
    forall q | 0 <= q < |ps| && ps[q].isFree
      ensures ps[q].order <= MAX_ORDER && r.floor <= r.rank[q] && NextOk(ps, r, q) && PrevOk(f, ps, r, q)
    {
      UnlinkOther(pages, p, q);
      UnlinkNext(first, pages, r, p, q);
      UnlinkPrev(first, pages, r, p, q);
    }
    forall o | 0 <= o < |f| ensures FirstOk(f, ps, o) { UnlinkFirst(first, pages, r, p, o); }
  }

  lemma {:induction false} UnlinkOther(pages: seq<Page>, p: nat, q: nat)
    requires p < |pages| && pages[p].next < |pages| && pages[p].prev < |pages| && q < |pages| && Unlinked(pages, p)[q].isFree
    ensures q != p && pages[q].isFree && Unlinked(pages, p)[q].order == pages[q].order
  {
  }

  lemma {:induction false} UnlinkFirst(first: seq<int>, pages: seq<Page>, r: Ranks, p: nat, o: nat)
    requires Linked(first, pages, r) && p < |pages| && pages[p].isFree && o < |first|
    requires NONE <= pages[p].next < |pages| && NONE <= pages[p].prev < |pages| && pages[p].order <= MAX_ORDER
    ensures FirstOk(FirstWithout(first, pages, p), Unlinked(pages, p), o)
  {
    assert FirstOk(first, pages, o) && NextOk(pages, r, p) && PrevOk(first, pages, r, p);
  }

  /** Every free block can be reached from the head of its list. */
  lemma {:induction false} ListNotEmpty(first: seq<int>, pages: seq<Page>, r: Ranks, p: nat)
    requires Linked(first, pages, r) && p < |pages| && pages[p].isFree
    ensures first[pages[p].order] != NONE
    decreases r.rank[p] - r.floor
  {
    if pages[p].prev != NONE { ListNotEmpty(first, pages, r, pages[p].prev); }
  }

  /** The counters are the numbers of free blocks of each order. */
  ghost predicate Counted(n: seq<nat>, h: Heads) {
    |n| == MAX_ORDER + 1 && forall o :: 0 <= o <= MAX_ORDER ==> n[o] == CountOf(h, o)
  }

  lemma {:induction false} CountedAdd(n: seq<nat>, h: Heads, p: nat, o: nat)
    requires Counted(n, h) && p < |h| && h[p] < 0 && o <= MAX_ORDER
    ensures Counted(n[o := n[o] + 1], h[p := o])
  {
    hide CountOf;
    var n', g := n[o := n[o] + 1], h[p := o];
    forall o' | 0 <= o' <= MAX_ORDER ensures n'[o'] == CountOf(g, o') { CountUpdate(h, p, o, o'); }
  }

  lemma {:induction false} CountedDrop(n: seq<nat>, h: Heads, p: nat)
    requires Counted(n, h) && p < |h| && 0 <= h[p] <= MAX_ORDER
    ensures n[h[p]] > 0 && Counted(n[h[p] := n[h[p]] - 1], h[p := -1])
  {
    hide CountOf;
    CountUpdate(h, p, -1, h[p]);
    var n', g := n[h[p] := n[h[p]] - 1], h[p := -1];
    forall o | 0 <= o <= MAX_ORDER ensures n'[o] == CountOf(g, o) { CountUpdate(h, p, -1, o); }
  }

  lemma {:induction false} NoneCounted(n: seq<nat>, h: Heads)
    requires |n| == MAX_ORDER + 1 && (forall o :: 0 <= o <= MAX_ORDER ==> n[o] == 0) && forall p :: 0 <= p < |h| ==> h[p] == -1
    ensures Counted(n, h)
  {
    forall o | 0 <= o <= MAX_ORDER ensures CountOf(h, o) == 0 { CountNone(h, o); }
  }

  /** With no free page the set of blocks is well formed, coalesced and linked. */
  lemma {:induction false} NoneLinked(first: seq<int>, pages: seq<Page>, r: Ranks)
    requires |first| == MAX_ORDER + 1 && |r.rank| == |pages|
    requires (forall o :: 0 <= o < |first| ==> first[o] == NONE) && forall p :: 0 <= p < |pages| ==> !pages[p].isFree
    ensures Linked(first, pages, r) && WellFormed(HeadsOf(pages)) && Coalesced(HeadsOf(pages))
  {
  }

  /** How a free ends; the last two are panics. */
  datatype Freeing = Freed | DoubleFreed | NoRecord

  class BuddyAllocator {
    const first: array<int>      // head of the free list of each order
    const nrFree: array<nat>     // its length
    const pages: array<Page>     // the page records
    const memory: array<int>     // the contents of each page; 0 stands for all zeros
    ghost var ranks: Ranks

    ghost function Blocks(): (h: Heads)
      reads this, pages
      ensures |h| == pages.Length
    {
      HeadsOf(pages[..])
    }

    /** The representation: lists, flags and counters say the same thing. */
    ghost predicate Rep()
      reads this, first, nrFree, pages
    {
      first.Length == MAX_ORDER + 1 && nrFree.Length == MAX_ORDER + 1 && memory.Length == pages.Length && first != memory
      && Linked(first[..], pages[..], ranks)
      && Counted(nrFree[..], Blocks())
    }

    ghost predicate Valid()
      reads this, first, nrFree, pages
    {
      Rep() && WellFormed(Blocks())
    }

    /** No page is free at first. */
    constructor (n: nat)
      ensures Valid() && Coalesced(Blocks()) && pages.Length == n && forall p :: 0 <= p < n ==> Blocks()[p] == -1
      ensures fresh(first) && fresh(nrFree) && fresh(pages) && fresh(memory)
    {
      hide Linked, Counted, WellFormed, Coalesced, Aligned;
      first := new int[MAX_ORDER + 1](_ => NONE);
      nrFree := new nat[MAX_ORDER + 1](_ => 0);
      pages := new Page[n](_ => Page(NONE, NONE, false, 0));
      memory := new int[n](_ => 0);
      ranks := Ranks(seq(n, _ => 0), 0);
      new;
      NoneCounted(nrFree[..], Blocks());
      NoneLinked(first[..], pages[..], ranks);
    }

    /** Make the block of order `o` at `p` a free block. */
    method AddBlock(p: nat, o: nat)
      requires Rep() && o <= MAX_ORDER && p < pages.Length && Blocks()[p] == -1
      modifies first, nrFree, pages, this`ranks
      ensures Rep() && Blocks() == old(Blocks())[p := o]
    {
      hide Linked, Counted, CountOf;
      PrependLinked(first[..], pages[..], ranks, o, p);
      CountedAdd(nrFree[..], Blocks(), p, o);
      ghost var f, ps, n := first[..], pages[..], nrFree[..];
      pages[p] := pages[p].(isFree := true, order := o);
      pages[p] := pages[p].(next := first[o], prev := NONE);
      if first[o] != NONE {
        pages[first[o]] := pages[first[o]].(prev := p);
      }
      first[o] := p;
      nrFree[o] := nrFree[o] + 1;
      ranks := Pushed(ranks, p);
      assert pages[..] == Prepended(f, ps, o, p);
      assert first[..] == f[o := p];
      assert nrFree[..] == n[o := n[o] + 1];
    }

    /** Hand the pages `start` to `end` to the allocator at boot, as the largest aligned blocks that fit.
        Exactly these pages become free in addition, and the blocks stay coalesced if and only if no
        free block has its buddy in the range. */
    method AddRange(start: nat, end: nat)
      requires Valid() && start <= end <= pages.Length && NoneFree(Blocks(), start, end)
      modifies first, nrFree, pages, this`ranks
      ensures Valid()
      ensures Adds(old(Blocks()), Blocks(), start, end)
      ensures old(Coalesced(Blocks())) ==> (Coalesced(Blocks()) <==> NoBuddyIn(old(Blocks()), start, end))
    {
      hide WellFormed, Coalesced, Covered, Largest, Linked, CountOf, HeadsOf, Aligned, NoBuddyIn, NoneFree, Adds, Pow2;
      ghost var h := Blocks();
      FillStart(h, start, end);
      AddsNothing(h, start);
      var cur := start;
      while cur < end
        invariant Rep() && Filling(h, Blocks(), start, cur, end)
        invariant Adds(h, Blocks(), start, cur)
        invariant NoBuddyIn(h, start, end) && Coalesced(h) ==> Coalesced(Blocks())
      {
        var order := LargestOrder(cur, end);
        ghost var g := Blocks();
        FillStep(h, g, start, cur, end, order);
        AddBlock(cur, order);
        AddsMore(h, g, Blocks(), start, cur, cur + Pow2(order));
        cur := cur + Pow2(order);
      }
      if !NoBuddyIn(h, start, end) { BuddyInRange(h, Blocks(), start, end); }
    }

    /** The largest order whose alignment and size both fit. */
    method LargestOrder(cur: nat, end: nat) returns (order: nat)
      requires cur < end
      ensures order <= MAX_ORDER && Fits(cur, order, end)
      ensures forall o :: order < o <= MAX_ORDER ==> !Fits(cur, o, end)
    {
      order := MAX_ORDER;
      while order > 0 && !Fits(cur, order, end)
        invariant order <= MAX_ORDER
        invariant forall o :: order < o <= MAX_ORDER ==> !Fits(cur, o, end)
      {
        order := order - 1;
      }
    }

    /** Take the free block at `p` off its list. */
    method DropBlock(p: nat, o: nat)
      requires Rep() && p < pages.Length && Blocks()[p] == o
      modifies first, nrFree, pages
      ensures Rep() && Blocks() == old(Blocks())[p := -1]
    {
      hide Linked, Counted, CountOf;
      UnlinkLinked(first[..], pages[..], ranks, p);
      CountedDrop(nrFree[..], Blocks(), p);
      ghost var f, ps, n := first[..], pages[..], nrFree[..];
      var prev, next := pages[p].prev, pages[p].next;
      if prev != NONE {
        pages[prev] := pages[prev].(next := next);
      } else {
        first[o] := next;
      }
      if next != NONE {
        pages[next] := pages[next].(prev := prev);
      }
      pages[p] := pages[p].(next := NONE, prev := NONE);
      nrFree[o] := nrFree[o] - 1;
      pages[p] := pages[p].(isFree := false);
      assert pages[..] == Unlinked(ps, p);
      assert first[..] == FirstWithout(f, ps, p);
      assert nrFree[..] == n[o := n[o] - 1];
    }

    method ZeroBlock(p: nat, o: nat)
      requires p + Pow2(o) <= memory.Length
      modifies memory
      ensures forall x :: 0 <= x < memory.Length ==> memory[x] == if InBlock(p, o, x) then 0 else old(memory[x])
    {
      forall x | p <= x < p + Pow2(o) { memory[x] := 0; }
    }

    /** The number of free pages, from the block counters. */
    method TotalFreePages() returns (total: nat)
      requires Valid()
      ensures total == |FreePages(Blocks())|
    {
      hide Linked, WellFormed, Coalesced, Pow2, HeadsOf;
      total := 0;
      for o := 0 to MAX_ORDER + 1
        invariant total == Orders(Blocks(), o)
      {
        assert nrFree[..][o] == CountOf(Blocks(), o);
        total := total + nrFree[o] * Pow2(o);
      }
      CountersArePages(Blocks());
    }

    /** The smallest order from `order` on with a free block, or one past the largest. */
    method FindOrder(order: nat) returns (avail: nat)
      requires Rep()
      ensures avail >= order
      ensures avail <= MAX_ORDER ==> first[avail] != NONE && Head(Blocks(), first[avail]) && Blocks()[first[avail]] == avail
      ensures forall p :: 0 <= p < pages.Length && Blocks()[p] >= order ==> Blocks()[p] >= avail
    {
      avail := order;
      while avail <= MAX_ORDER && first[avail] == NONE
        invariant avail >= order
        invariant forall p :: 0 <= p < pages.Length && Blocks()[p] >= order ==> Blocks()[p] >= avail
      {
        forall p | 0 <= p < pages.Length && Blocks()[p] == avail ensures false {
          ListNotEmpty(first[..], pages[..], ranks, p);
        }
        avail := avail + 1;
      }
      assert avail <= MAX_ORDER ==> FirstOk(first[..], pages[..], avail);
      forall p | 0 <= p < pages.Length && Blocks()[p] >= order ensures Blocks()[p] >= avail {
      }
    }

    /** Give the upper halves of an unused block back until a block of order `to` is left. */
    method SplitDown(p: nat, from: nat, to: nat)
      requires Rep() && Hole(Blocks(), p, from) && to <= from
      modifies first, nrFree, pages, this`ranks
      ensures Rep() && Hole(Blocks(), p, to) && Blocks() == Split(old(Blocks()), p, from, to)
      ensures old(Coalesced(Blocks())) ==> Coalesced(Blocks())
    {
      hide WellFormed, Coalesced, Unused, Linked, CountOf, HeadsOf, Aligned, Buddy, Pow2;
      var cur := from;
      while cur > to
        invariant to <= cur <= from && Rep() && Hole(Blocks(), p, cur) && p + Pow2(cur) <= pages.Length
        invariant Split(Blocks(), p, cur, to) == Split(old(Blocks()), p, from, to)
        invariant old(Coalesced(Blocks())) ==> Coalesced(Blocks())
      {
        cur := cur - 1;
        SplitStep(Blocks(), p, cur);
        AddBlock(p + Pow2(cur), cur);
      }
    }

    /** Allocate `2^order` pages. It fails exactly when no block is large enough; otherwise it takes
        a smallest such block, splits it, and hands out its first pages, zeroed. */
    method Alloc(order: nat) returns (r: Option<nat>)
      requires Valid()
      modifies first, nrFree, pages, memory, this`ranks
      ensures Valid() && (old(Coalesced(Blocks())) ==> Coalesced(Blocks()))
      ensures r == None <==> forall p :: 0 <= p < pages.Length ==> old(Blocks())[p] < order
      ensures r == None ==> Blocks() == old(Blocks()) && memory[..] == old(memory[..])
      ensures r.Some? ==> Head(old(Blocks()), r.value) && order <= old(Blocks())[r.value]
      ensures r.Some? ==> forall p :: 0 <= p < pages.Length && old(Blocks())[p] >= order ==> old(Blocks())[p] >= old(Blocks())[r.value]
      ensures r.Some? ==> Blocks() == Take(old(Blocks()), r.value, order)
      ensures r.Some? ==> forall x :: 0 <= x < memory.Length ==>
                memory[x] == if InBlock(r.value, order, x) then 0 else old(memory[x])
    {
      var avail := FindOrder(order);
      if avail > MAX_ORDER { return None; }
      var block := first[avail];
      ghost var h := Blocks();
      Delete(h, block);
      DropBlock(block, avail);
      SplitDown(block, avail, order);
      ZeroBlock(block, order);
      return Some(block);
    }

    /** Free the `2^order` pages at `index`: zero them, then merge with the buddy as long as it is
        free. Freeing the head of a free block is detected and changes nothing, and it fails where the
        record of a buddy would lie outside the page array. Otherwise the allocator stays valid
        exactly if none of the pages was free. */
    method Release(index: nat, order: nat) returns (r: Freeing)
      requires Valid() && order <= MAX_ORDER && Aligned(index, order) && index + Pow2(order) <= pages.Length
      modifies first, nrFree, pages, memory, this`ranks
      ensures r == DoubleFreed <==> Head(old(Blocks()), index)
      ensures r == DoubleFreed ==> Valid() && Blocks() == old(Blocks()) && memory[..] == old(memory[..])
      ensures r == NoRecord <==> !Head(old(Blocks()), index) && MeetsEnd(old(Blocks()), index, order)
      ensures r == Freed ==> Rep() && Blocks() == Merge(old(Blocks()), index, order)
      ensures r == Freed ==> (Valid() <==> Hole(old(Blocks()), index, order))
      ensures r == Freed && Valid() && old(Coalesced(Blocks())) ==> Coalesced(Blocks())
      ensures r == Freed ==> forall x :: 0 <= x < memory.Length ==>
                memory[x] == if InBlock(index, order, x) then 0 else old(memory[x])
    {
      hide Coalesced, Unused, Linked, Counted, Buddy, Pow2, Merge, LeavesArray, MeetsEnd, Aligned;
      if pages[index].isFree { return DoubleFreed; }
      ghost var h := Blocks();
      LeavesIff(h, index, order);
      ZeroBlock(index, order);
      var inside := MergeUp(index, order);
      if !inside { return NoRecord; }
      if Hole(h, index, order) {
        MergeSound(h, index, order);
      } else {
        OverlapBreaks(h, index, order);
      }
      return Freed;
    }

    /** Take the buddy of a block off its list if it is free at the same order. */
    method TakeBuddy(p: nat, o: nat) returns (taken: bool, low: nat)
      requires Rep() && Spot(Blocks(), p, o) && HeadsFit(Blocks()) && o < MAX_ORDER && Buddy(p, o) < pages.Length
      modifies first, nrFree, pages
      ensures Rep() && taken == Free(old(Blocks()), Buddy(p, o), o)
      ensures taken ==> low == (if p < Buddy(p, o) then p else Buddy(p, o)) && Blocks() == old(Blocks())[Buddy(p, o) := -1]
                        && Spot(Blocks(), low, o + 1) && HeadsFit(Blocks())
      ensures !taken ==> Blocks() == old(Blocks())
    {
      hide Linked, Counted, Aligned, Buddy, Pow2, Spot, HeadsFit;
      var buddy := Buddy(p, o);
      low := if p < buddy then p else buddy;
      taken := pages[buddy].isFree && pages[buddy].order == o;
      if taken {
        SpotGrows(Blocks(), p, o);
        DropBlock(buddy, o);
      }
    }

    /** The merge loop; false where a buddy's record is outside the page array. */
    method MergeUp(index: nat, order: nat) returns (inside: bool)
      requires Rep() && Spot(Blocks(), index, order) && HeadsFit(Blocks())
      modifies first, nrFree, pages, this`ranks
      ensures inside <==> !LeavesArray(old(Blocks()), index, order)
      ensures inside ==> Rep() && index < |old(Blocks())| && Blocks() == Merge(old(Blocks()), index, order)
    {
      hide Linked, Counted, HeadsOf, Aligned, Buddy, Pow2, Spot, HeadsFit;
      var cur: nat, o: nat := index, order;
      SpotInside(Blocks(), cur, o);
      while o < MAX_ORDER
        invariant Rep() && Spot(Blocks(), cur, o) && HeadsFit(Blocks()) && cur < pages.Length && o <= MAX_ORDER
        invariant Merge(Blocks(), cur, o) == Merge(old(Blocks()), index, order)
        invariant LeavesArray(Blocks(), cur, o) == LeavesArray(old(Blocks()), index, order)
        decreases MAX_ORDER - o
      {
        if Buddy(cur, o) >= pages.Length { return false; }
        var taken, low := TakeBuddy(cur, o);
        if !taken { break; }
        cur, o := low, o + 1;
        SpotInside(Blocks(), cur, o);
      }
      SpotInside(Blocks(), cur, o);
      AddBlock(cur, o);
      return true;
    }
  }

  lemma {:induction false} SpotInside(h: Heads, p: nat, o: nat)
    requires Spot(h, p, o)
    ensures p < |h| && h[p] < 0 && o <= MAX_ORDER
  {
  }

  /** Two neighbouring pages handed over one after the other stay two blocks, although together they
      are one. */
  method TouchingRanges(n: nat) returns (a: BuddyAllocator)
    requires n >= 2
    ensures a.Valid() && !Coalesced(a.Blocks()) && forall x :: Covered(a.Blocks(), x) <==> 0 <= x < 2
  {
    hide BuddyAllocator.Rep, WellFormed, Coalesced, Covered, Buddy, Pow2;
    a := new BuddyAllocator(n);
    ghost var h0 := a.Blocks();
    NothingFree(h0);
    a.AddRange(0, 1);
    ghost var h1 := a.Blocks();
    FirstPageAlone(h1);
    a.AddRange(1, 2);
  }

  lemma {:induction false} NothingFree(h: Heads)
    requires forall p :: 0 <= p < |h| ==> h[p] == -1
    ensures (forall x :: !Covered(h, x)) && NoBuddyIn(h, 0, 1)
  {
  }

  lemma {:induction false} FirstPageAlone(h: Heads)
    requires WellFormed(h) && |h| >= 2 && forall x :: Covered(h, x) <==> x == 0
    ensures h[0] == 0 && !NoBuddyIn(h, 1, 2)
  {
    assert Covered(h, 0);
    var p: nat :| Covers(h, p, 0);
    if h[0] > 0 {
      Halves(h[0] - 1);
      assert Covers(h, 0, 1);
      assert Covered(h, 1);
    }
    assert Buddy(0, 0) == 1;
  }
}
