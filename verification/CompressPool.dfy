/**
 The pool of compressed pages: a bounded table of compressed copies, each under its page's index.
 */
module CompressPool {

  import opened Bytes
  import opened Lz4

  const MAX_SLOTS := 256

  datatype Slot = Slot(pageIndex: nat, data: seq<byte>)

  type Slots = seq<Option<Slot>>

  /** A slot holds `page` under `index`. */
  ghost predicate Stores(s: Option<Slot>, index: nat, page: seq<byte>) {
    s.Some? && s.value.pageIndex == index && DecodesTo(s.value.data, page)
  }

  /** Every slot in use holds some whole page. */
  ghost predicate Intact(slots: Slots) {
    forall i :: 0 <= i < |slots| && slots[i].Some? ==>
      Decode(slots[i].value.data, [], PAGE_SIZE).Ok? && |Decode(slots[i].value.data, [], PAGE_SIZE).value| == PAGE_SIZE
  }

  function InUse(slots: Slots): (n: nat)
    ensures n <= |slots|
  {
    if slots == [] then 0 else InUse(slots[..|slots| - 1]) + (if slots[|slots| - 1].Some? then 1 else 0)
  }

  lemma {:induction false} InUseUpdate(slots: Slots, i: nat, s: Option<Slot>)
    requires i < |slots|
    ensures InUse(slots[i := s]) == InUse(slots) - (if slots[i].Some? then 1 else 0) + (if s.Some? then 1 else 0)
  {
    var n := |slots| - 1;
    if i == n {
      assert slots[i := s][..n] == slots[..n];
    } else {
      assert slots[i := s][..n] == slots[..n][i := s];
      InUseUpdate(slots[..n], i, s);
    }
  }

  /** `i` is the first slot of that page. */
  predicate FirstOf(slots: Slots, index: nat, i: nat) {
    i < |slots| && slots[i].Some? && slots[i].value.pageIndex == index
    && forall j :: 0 <= j < i ==> slots[j].Some? ==> slots[j].value.pageIndex != index
  }

  /** Compressing the page saves space. */
  ghost predicate Shrinks(page: seq<byte>) {
    |Packed(page)| < PAGE_SIZE
  }

  /** Compressing a page of one repeated byte always does. */
  lemma {:induction false} AllEqualShrinks(page: seq<byte>)
    requires |page| == PAGE_SIZE && AllEqual(page)
    ensures Shrinks(page)
  {
    PackedAllEqual(page, Packed(page));
    LengthBytesLength(|page| - 6);
  }

  /** `i` is the first empty slot. */
  predicate FirstEmpty(slots: Slots, i: nat) {
    i < |slots| && slots[i] == None && forall j :: 0 <= j < i ==> slots[j].Some?
  }

  lemma {:induction false} FullIsFull(slots: Slots, i: nat)
    requires InUse(slots) == |slots| && i < |slots|
    ensures slots[i].Some?
  {
    if slots[i] == None { InUseUpdate(slots, i, Some(Slot(0, []))); }
  }

  class Pool {
    const slots: array<Option<Slot>>
    var used: nat

    ghost predicate Valid()
      reads this, slots
    {
      slots.Length == MAX_SLOTS && used == InUse(slots[..]) && Intact(slots[..])
    }

    constructor ()
      ensures Valid() && used == 0 && fresh(slots) && forall i :: 0 <= i < slots.Length ==> slots[i] == None
    {
      slots := new Option<Slot>[MAX_SLOTS](_ => None);
      used := 0;
      new;
      NoneInUse(slots[..]);
    }

    /** Compress a page into the first empty slot, if there is one, memory for it, and a gain. */
    method Store(index: nat, page: seq<byte>, canAllocate: bool) returns (ok: bool, ghost at: nat)
      requires Valid() && |page| == PAGE_SIZE
      modifies this, slots
      ensures Valid()
      ensures ok <==> canAllocate && Shrinks(page) && exists i :: FirstEmpty(old(slots[..]), i)
      ensures ok ==> FirstEmpty(old(slots[..]), at) && slots[..] == old(slots[..])[at := slots[at]]
                     && Stores(slots[at], index, page) && |slots[at].value.data| < PAGE_SIZE
      ensures !ok ==> slots[..] == old(slots[..])
    {
      hide InUse, Packed, IsPacked, Decode, AllEqual;
      at := 0;
      if used >= MAX_SLOTS {
        forall i | 0 <= i < MAX_SLOTS ensures slots[i].Some? { FullIsFull(slots[..], i); }
        return false, 0;
      }
      var buf := new byte[MAX_COMPRESSED_SIZE](_ => 0);
      var len := Compress(page, buf);
      var data := buf[..len.size];
      if len.size >= PAGE_SIZE { return false, 0; }
      if !canAllocate { return false, 0; }
      assert Decode(data, [], PAGE_SIZE) == Ok(page);
      for i := 0 to MAX_SLOTS
        invariant slots[..] == old(slots[..]) && used == old(used)
        invariant forall j :: 0 <= j < i ==> slots[j].Some?
      {
        if slots[i] == None {
          assert FirstEmpty(slots[..], i);
          InUseUpdate(slots[..], i, Some(Slot(index, data)));
          slots[i] := Some(Slot(index, data));
          used := used + 1;
          assert slots[..] == old(slots[..])[i := slots[i]];
          return true, i;
        }
      }
      return false, 0;
    }

    /** Bring the first stored copy of a page back and empty its slot. */
    method Load(index: nat, out: array<byte>) returns (found: bool, ghost at: nat)
      requires Valid() && out.Length == PAGE_SIZE
      modifies this, slots, out
      ensures Valid()
      ensures found <==> exists i :: FirstOf(old(slots[..]), index, i)
      ensures found ==> FirstOf(old(slots[..]), index, at) && slots[..] == old(slots[..])[at := None]
                        && Decode(old(slots[..])[at].value.data, [], PAGE_SIZE) == Ok(out[..])
      ensures !found ==> slots[..] == old(slots[..]) && out[..] == old(out[..])
    {
      hide Decode, InUse;
      at := 0;
      for i := 0 to MAX_SLOTS
        invariant slots[..] == old(slots[..]) && used == old(used) && out[..] == old(out[..])
        invariant forall j :: 0 <= j < i ==> slots[j].Some? ==> slots[j].value.pageIndex != index
      {
        if slots[i] == None || slots[i].value.pageIndex != index { continue; }
        ghost var was := slots[..];
        assert FirstOf(was, index, i) && was[i] == slots[i];
        var r := Decompress(slots[i].value.data, out);
        assert slots[..] == was;
        InUseUpdate(slots[..], i, None);
        SomeInUse(slots[..], i);
        slots[i] := None;
        used := used - 1;
        assert slots[..] == was[i := None];
        assert out[..] == out[..PAGE_SIZE];
        return true, i;
      }
      return false, 0;
    }
  }

  lemma {:induction false} NoneInUse(slots: Slots)
    requires forall i :: 0 <= i < |slots| ==> slots[i] == None
    ensures InUse(slots) == 0
  {
    if slots != [] { NoneInUse(slots[..|slots| - 1]); }
  }

  lemma {:induction false} SomeInUse(slots: Slots, i: nat)
    requires i < |slots| && slots[i].Some?
    ensures InUse(slots) >= 1
  {
    InUseUpdate(slots, i, None);
  }

  // ----- storing, then loading -----

  /** No slot before `at` holds the page index. */
  ghost predicate NoEarlierCopy(slots: Slots, index: nat, at: nat) {
    forall j :: 0 <= j < at && j < |slots| && slots[j].Some? ==> slots[j].value.pageIndex != index
  }

  /** The slot just filled is the one a load will find, exactly if no earlier slot has the same index. */
  lemma {:induction false} FirstOfStored(slots: Slots, at: nat, s: Slot)
    requires FirstEmpty(slots, at)
    ensures FirstOf(slots[at := Some(s)], s.pageIndex, at) <==> NoEarlierCopy(slots, s.pageIndex, at)
  {
    var after := slots[at := Some(s)];
    forall j | 0 <= j < at ensures after[j] == slots[j] { }
  }

  /** Some slot holds the index, so there is a first one. */
  lemma {:induction false} FirstExists(slots: Slots, index: nat, at: nat) returns (i: nat)
    requires at < |slots| && slots[at].Some? && slots[at].value.pageIndex == index
    ensures FirstOf(slots, index, i) && i <= at
  {
    i := 0;
    while !(slots[i].Some? && slots[i].value.pageIndex == index)
      invariant i <= at && forall j :: 0 <= j < i ==> slots[j].Some? ==> slots[j].value.pageIndex != index
      decreases at - i
    {
      i := i + 1;
    }
  }

  /** Which copy a load finds after a store: the new one if it is the first, or else the one it would
      have found before. */
  lemma {:induction false} FoundAfterStore(slots: Slots, at: nat, s: Slot, from: nat)
    requires FirstEmpty(slots, at) && FirstOf(slots[at := Some(s)], s.pageIndex, from)
    ensures from == at <==> NoEarlierCopy(slots, s.pageIndex, at)
    ensures from != at ==> FirstOf(slots, s.pageIndex, from)
    ensures slots[at := Some(s)][at := None] == slots
  {
    var after := slots[at := Some(s)];
    assert after[at].value.pageIndex == s.pageIndex;
    FirstOfStored(slots, at, s);
    forall j | 0 <= j < at ensures after[j] == slots[j] { }
  }

  /** Store a page and load its index. The load finds the slot that was filled, and so the page, if and
      only if no earlier slot holds the index; otherwise it brings back the earliest copy. */
  method StoreThenLoad(pool: Pool, index: nat, page: seq<byte>, out: array<byte>)
      returns (stored: bool, found: bool, ghost at: nat, ghost from: nat)
    requires pool.Valid() && |page| == PAGE_SIZE && out.Length == PAGE_SIZE
    modifies pool, pool.slots, out
    ensures pool.Valid()
    ensures stored <==> Shrinks(page) && exists i :: FirstEmpty(old(pool.slots[..]), i)
    ensures stored ==> found && FirstEmpty(old(pool.slots[..]), at) && (from == at <==> NoEarlierCopy(old(pool.slots[..]), index, at))
    ensures stored && from == at ==> out[..] == page && pool.slots[..] == old(pool.slots[..])
    ensures stored && from != at ==> FirstOf(old(pool.slots[..]), index, from)
                                     && Decode(old(pool.slots[..])[from].value.data, [], PAGE_SIZE) == Ok(out[..])
  {
    hide Shrinks, InUse, Decode, Intact, NoEarlierCopy, FirstOf;
    found, from := false, 0;
    ghost var before := pool.slots[..];
    stored, at := pool.Store(index, page, true);
    if stored {
      ghost var after, s := pool.slots[..], pool.slots[at].value;
      ghost var i := FirstExists(after, index, at);
      found, from := pool.Load(index, out);
      FoundAfterStore(before, at, s, from);
    }
  }

  /** Two pages stored under one index in an empty pool, whatever the index: the load brings back the
      older one. */
  method StaleCopy(index: nat, older: seq<byte>, newer: seq<byte>, out: array<byte>) returns (stored: bool, found: bool)
    requires |older| == |newer| == PAGE_SIZE && out.Length == PAGE_SIZE
    modifies out
    ensures stored <==> Shrinks(older) && Shrinks(newer)
    ensures stored ==> found && out[..] == older
  {
    hide Shrinks, InUse, Decode, Intact;
    found := false;
    var pool := new Pool();
    assert FirstEmpty(pool.slots[..], 0);
    var first, at := pool.Store(index, older, true);
    if !first { return false, false; }
    ghost var one := pool.slots[..];
    assert at == 0 && one[0] == pool.slots[0];
    assert FirstEmpty(one, 1);
    stored, at := pool.Store(index, newer, true);
    if stored {
      ghost var two := pool.slots[..];
      assert two[0] == one[0] && FirstOf(two, index, 0);
      ghost var from;
      found, from := pool.Load(index, out);
      assert Stores(one[0], index, older);
    }
  }
}
