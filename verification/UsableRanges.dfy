/**
 The boot-time iterator over usable physical memory: entries of the firmware's memory map that may be
 allocated, page-aligned, with ranges that touch merged into one.
 */
module UsableRanges {

  import opened Bytes

  const PAGE := 4096

  datatype Range = Range(address: nat, size: nat)

  datatype Type = Free | InUse | Reserved | BootloaderReclaimable | AcpiReclaimable | AcpiNvs | Framebuffer
                | ReservedMapped | Unusable | Unknown

  datatype Entry = Entry(range: Range, kind: Type)

  predicate Usable(t: Type) {
    t in {Free, InUse, BootloaderReclaimable, AcpiReclaimable}
  }

  function After(r: Range): nat {
    r.address + r.size
  }

  predicate Aligned(r: Range) {
    r.address % PAGE == 0 && r.size % PAGE == 0
  }

  /** The smallest page-aligned range around `r`. */
  function PageAlign(r: Range): (a: Range)
    ensures Aligned(a) && a.address <= r.address < a.address + PAGE
    ensures After(r) <= After(a) < After(r) + PAGE
  {
    var address := r.address / PAGE * PAGE;
    Range(address, (After(r) + PAGE - 1) / PAGE * PAGE - address)
  }

  // ----- the iterator -----

  /** What is still to come: the rest of the map, and the range being collected. */
  function Remaining(entries: seq<Entry>, current: Option<Range>): seq<Range>
    decreases |entries|
  {
    if entries == [] then (if current.Some? then [current.value] else [])
    else if !Usable(entries[0].kind) then Remaining(entries[1..], current)
    else
      var r := PageAlign(entries[0].range);
      if current == None then Remaining(entries[1..], Some(r))
      else if After(current.value) == r.address
      then Remaining(entries[1..], Some(Range(current.value.address, current.value.size + r.size)))
      else [current.value] + Remaining(entries[1..], Some(r))
  }

  class Iterator {
    var entries: seq<Entry>
    var current: Option<Range>

    constructor (m: seq<Entry>)
      ensures entries == m && current == None
    {
      entries, current := m, None;
    }

    ghost function Rest(): seq<Range>
      reads this
    {
      Remaining(entries, current)
    }

    /** The range of the next usable entry of the map. */
    method NextUsable() returns (r: Option<Range>)
      modifies this`entries
      ensures |entries| <= |old(entries)|
      ensures r == None ==> entries == [] && Rest() == old(Rest())
      ensures r.Some? ==> |entries| < |old(entries)| && forall c :: Remaining(old(entries), c) == Remaining([Entry(r.value, Free)] + entries, c)
    {
      while entries != []
        invariant |entries| <= |old(entries)|
        invariant forall c :: Remaining(old(entries), c) == Remaining(entries, c)
        decreases |entries|
      {
        var entry := entries[0];
        entries := entries[1..];
        if Usable(entry.kind) {
          assert ([Entry(entry.range, Free)] + entries)[1..] == entries;
          return Some(entry.range);
        }
      }
      return None;
    }

    /** Yield the first of the remaining ranges, or nothing when there are none. */
    method Next() returns (r: Option<Range>)
      modifies this
      ensures if old(Rest()) == [] then r == None && Rest() == [] && entries == [] && current == None
              else r == Some(old(Rest())[0]) && Rest() == old(Rest())[1..]
    {
      ghost var start := Rest();
      while true
        invariant Rest() == start
        decreases |entries|
      {
        var found := NextUsable();
        if found == None {
          r := current;
          current := None;
          return;
        }
        assert ([Entry(found.value, Free)] + entries)[1..] == entries;
        var range := PageAlign(found.value);
        if current == None {
          current := Some(range);
          continue;
        }
        if After(current.value) == range.address {
          current := Some(Range(current.value.address, current.value.size + range.size));
          continue;
        }
        r := current;
        current := Some(range);
        assert start == [r.value] + Rest();
        return;
      }
    }

    /** Drain the iterator. */
    method Collect() returns (all: seq<Range>)
      modifies this
      ensures all == old(Rest()) && Rest() == []
    {
      all := [];
      ghost var start := Rest();
      while true
        invariant all + Rest() == start
        decreases |Rest()|
      {
        ghost var rest := Rest();
        var r := Next();
        if r == None {
          assert all + [] == all;
          return;
        }
        all := all + [r.value];
        assert rest == [r.value] + Rest();
      }
    }
  }

  // ----- what the ranges are -----

  /** The pages of a range, in order. */
  function Pages(r: Range): seq<nat> {
    seq(r.size / PAGE, i requires 0 <= i => r.address + i * PAGE)
  }

  function PagesOf(rs: seq<Range>): seq<nat> {
    if rs == [] then [] else Pages(rs[0]) + PagesOf(rs[1..])
  }

  function Total(rs: seq<Range>): nat {
    if rs == [] then 0 else rs[0].size + Total(rs[1..])
  }

  /** The usable entries, aligned, in map order. */
  function UsableAligned(entries: seq<Entry>): seq<Range> {
    if entries == [] then []
    else if Usable(entries[0].kind) then [PageAlign(entries[0].range)] + UsableAligned(entries[1..])
    else UsableAligned(entries[1..])
  }

  function ListOf(r: Option<Range>): seq<Range> {
    if r.Some? then [r.value] else []
  }

  lemma {:induction false} MergePages(a: Range, b: Range)
    requires Aligned(a) && Aligned(b) && After(a) == b.address
    ensures Pages(Range(a.address, a.size + b.size)) == Pages(a) + Pages(b)
  {
    var n, m := a.size / PAGE, b.size / PAGE;
    assert (a.size + b.size) / PAGE == n + m && a.size == n * PAGE;
  }

  /** No page is lost, added, repeated or moved: the ranges expand to the pages of the usable entries
      in map order. */
  lemma {:induction false} SamePages(entries: seq<Entry>, current: Option<Range>)
    requires current.Some? ==> Aligned(current.value)
    ensures PagesOf(Remaining(entries, current)) == PagesOf(ListOf(current) + UsableAligned(entries))
    ensures Total(Remaining(entries, current)) == Total(ListOf(current) + UsableAligned(entries))
    decreases |entries|
  {
    if entries == [] {
      assert ListOf(current) + UsableAligned(entries) == Remaining(entries, current);
    } else if !Usable(entries[0].kind) {
      SamePages(entries[1..], current);
    } else {
      var r, rest := PageAlign(entries[0].range), UsableAligned(entries[1..]);
      assert UsableAligned(entries) == [r] + rest && ([r] + rest)[1..] == rest;
      if current == None {
        SamePages(entries[1..], Some(r));
        assert ListOf(None) + ([r] + rest) == ListOf(Some(r)) + rest;
      } else {
        var c := current.value;
        var all := [c] + ([r] + rest);
        assert all[1..] == [r] + rest;
        if After(c) == r.address {
          var merged := Range(c.address, c.size + r.size);
          SamePages(entries[1..], Some(merged));
          MergePages(c, r);
          assert ([merged] + rest)[1..] == rest;
        } else {
          SamePages(entries[1..], Some(r));
          assert ([c] + Remaining(entries[1..], Some(r)))[1..] == Remaining(entries[1..], Some(r));
        }
      }
    }
  }

  /** The first range that comes out begins where the current one does. */
  lemma {:induction false} FirstAddress(entries: seq<Entry>, c: Range)
    ensures var rs := Remaining(entries, Some(c)); rs != [] && rs[0].address == c.address
    decreases |entries|
  {
    if entries != [] {
      if !Usable(entries[0].kind) {
        FirstAddress(entries[1..], c);
      } else {
        var r := PageAlign(entries[0].range);
        if After(c) == r.address { FirstAddress(entries[1..], Range(c.address, c.size + r.size)); }
      }
    }
  }

  /** No range starts where the one before it ends. */
  ghost predicate Separated(rs: seq<Range>) {
    forall i, j :: 0 <= i < j < |rs| && j == i + 1 ==> After(rs[i]) != rs[j].address
  }

  /** Merging is complete: all ranges are page-aligned, and none starts where the one before it ends. */
  lemma {:induction false} FullyMerged(entries: seq<Entry>, current: Option<Range>)
    requires current.Some? ==> Aligned(current.value)
    ensures var rs := Remaining(entries, current);
            (forall i :: 0 <= i < |rs| ==> Aligned(rs[i]))
            && Separated(rs)
    decreases |entries|
  {
    hide PageAlign, Usable, Separated, After;
    if entries == [] {
      LoneRange(current);
    } else if !Usable(entries[0].kind) {
      FullyMerged(entries[1..], current);
    } else {
      var r := PageAlign(entries[0].range);
      if current == None {
        FullyMerged(entries[1..], Some(r));
      } else if After(current.value) == r.address {
        MergeAligned(current.value, r);
        FullyMerged(entries[1..], Some(Range(current.value.address, current.value.size + r.size)));
      } else {
        FullyMerged(entries[1..], Some(r));
        FirstAddress(entries[1..], r);
        SeparatedCons(current.value, Remaining(entries[1..], Some(r)));
      }
    }
  }

  lemma {:induction false} LoneRange(current: Option<Range>)
    ensures Separated(if current.Some? then [current.value] else [])
  {
  }

  lemma {:induction false} MergeAligned(c: Range, r: Range)
    requires Aligned(c) && Aligned(r)
    ensures Aligned(Range(c.address, c.size + r.size))
  {
  }

  lemma {:induction false} SeparatedCons(c: Range, rs: seq<Range>)
    requires Separated(rs) && rs != [] && After(c) != rs[0].address
    ensures Separated([c] + rs)
    ensures forall i :: 0 < i < |[c] + rs| ==> ([c] + rs)[i] == rs[i - 1]
  {
    hide After;
    var all := [c] + rs;
    forall i, j | 0 <= i < j < |all| && j == i + 1 ensures After(all[i]) != all[j].address {
      if i > 0 { assert all[i] == rs[i - 1] && all[j] == rs[i]; }
    }
  }

  /** A whole run of the iterator. */
  method UsableMemory(entries: seq<Entry>) returns (ranges: seq<Range>)
    ensures PagesOf(ranges) == PagesOf(UsableAligned(entries)) && Total(ranges) == Total(UsableAligned(entries))
    ensures forall i :: 0 <= i < |ranges| ==> Aligned(ranges[i])
    ensures Separated(ranges)
  {
    var it := new Iterator(entries);
    ranges := it.Collect();
    SamePages(entries, None);
    FullyMerged(entries, None);
    assert ListOf(None) + UsableAligned(entries) == UsableAligned(entries);
  }
}
