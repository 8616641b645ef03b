/**
 The shell's history: a ring of 50 lines of up to 255 bytes. The reference is the list of all lines
 ever stored; the ring shows its last 50, newest first.
 */
module History {

  import opened Bytes

  const MAX := 50
  const LINE_MAX := 255

  type Text = seq<byte>

  /** Empty lines and repetitions of the last stored line are dropped, long lines cut. */
  function Push(log: seq<Text>, line: Text): seq<Text> {
    if line == [] || (log != [] && log[|log| - 1] == line) then log
    else log + [line[..Min(|line|, LINE_MAX)]]
  }

  function PushAll(log: seq<Text>, lines: seq<Text>): seq<Text>
    decreases lines
  {
    if lines == [] then log else PushAll(Push(log, lines[0]), lines[1..])
  }

  /** The n-th newest of the last 50 lines. */
  function Get(log: seq<Text>, n: nat): Option<Text> {
    if n == 0 || n > Min(|log|, MAX) then None else Some(log[|log| - n])
  }

  /** The slot of the k-th line ever stored. */
  function SlotOf(k: nat): (i: nat)
    ensures i < MAX
  {
    k % MAX
  }

  lemma {:induction false} SlotsDiffer(k: nat, m: nat)
    requires m - MAX < k < m
    ensures SlotOf(k) != SlotOf(m)
  {
  }

  class Ring {
    const entries: array2<byte>
    const lens: array<nat>
    var count: nat
    var total: nat
    ghost var log: seq<Text>

    /** Slot `i` holds `line`. */
    ghost predicate Holds(i: nat, line: Text)
      requires entries.Length0 == MAX && entries.Length1 == LINE_MAX + 1 && lens.Length == MAX && i < MAX
      reads this, entries, lens
    {
      lens[i] == |line| <= LINE_MAX && forall j :: 0 <= j < |line| ==> entries[i, j] == line[j]
    }

    ghost predicate Valid()
      reads this, entries, lens
    {
      entries.Length0 == MAX && entries.Length1 == LINE_MAX + 1 && lens.Length == MAX
      && count == |log| && total == Min(|log|, MAX)
      && (forall k :: 0 <= k < |log| ==> |log[k]| <= LINE_MAX)
      && (forall k :: count - total <= k < count ==> Holds(SlotOf(k), log[k]))
    }

    constructor ()
      ensures Valid() && log == [] && fresh(entries) && fresh(lens)
    {
      entries := new byte[MAX, LINE_MAX + 1]((_, _) => 0);
      lens := new nat[MAX](_ => 0);
      count, total, log := 0, 0, [];
    }

    method SlotEquals(i: nat, line: Text) returns (same: bool)
      requires Valid() && i < MAX && lens[i] <= LINE_MAX
      ensures same <==> Holds(i, line)
    {
      if lens[i] != |line| { return false; }
      for j := 0 to |line|
        invariant forall k :: 0 <= k < j ==> entries[i, k] == line[k]
      {
        if entries[i, j] != line[j] { return false; }
      }
      return true;
    }

    method Store(line: Text)
      requires Valid()
      modifies this, entries, lens
      ensures Valid() && log == Push(old(log), line)
    {
      if |line| == 0 { return; }
      var same := RepeatsLast(line);
      if same { return; }
      Add(line[..Min(|line|, LINE_MAX)]);
    }

    /** Is this the last stored line again? */
    method RepeatsLast(line: Text) returns (same: bool)
      requires Valid()
      ensures same <==> log != [] && log[|log| - 1] == line
    {
      if total == 0 { return false; }
      var last := (count - 1) % MAX;
      assert Holds(SlotOf(count - 1), log[count - 1]);
      same := SlotEquals(last, line);
    }

    /** Append a line. */
    method Add(line: Text)
      requires Valid() && |line| <= LINE_MAX
      modifies this, entries, lens
      ensures Valid() && log == old(log) + [line]
    {
      WriteSlot(count % MAX, line);
      ghost var before := log;
      log := log + [line];
      count := count + 1;
      if total < MAX { total := total + 1; }
      forall k | count - total <= k < count ensures Holds(SlotOf(k), log[k]) {
        if k < count - 1 { assert log[k] == before[k]; }
      }
    }

    /** Overwrite slot `idx`; the slots of the other lines on show keep theirs. */
    method WriteSlot(idx: nat, line: Text)
      requires Valid() && idx == SlotOf(count) && |line| <= LINE_MAX
      modifies entries, lens
      ensures Holds(idx, line)
      ensures forall k :: count - total <= k < count && k > count - MAX ==> Holds(SlotOf(k), log[k])
    {
      forall k | count - total <= k < count && k > count - MAX ensures SlotOf(k) != idx { SlotsDiffer(k, count); }
      forall j | 0 <= j < |line| { entries[idx, j] := line[j]; }
      lens[idx] := |line|;
      forall k | count - total <= k < count && k > count - MAX ensures Holds(SlotOf(k), log[k]) {
        assert old(Holds(SlotOf(k), log[k]));
      }
    }

    /** The line in a slot. */
    method ReadSlot(i: nat, ghost line: Text) returns (s: Text)
      requires Valid() && i < MAX && Holds(i, line)
      ensures s == line
    {
      s := [];
      for j := 0 to lens[i]
        invariant s == line[..j]
      {
        s := s + [entries[i, j]];
      }
    }

    method Lookup(n: nat) returns (r: Option<Text>)
      requires Valid()
      ensures r == Get(log, n) && (r.Some? ==> |r.value| <= LINE_MAX)
    {
      if n == 0 || n > total { return None; }
      var idx := (count - n) % MAX;
      assert idx == SlotOf(count - n) && Holds(SlotOf(count - n), log[count - n]);
      var s := ReadSlot(idx, log[count - n]);
      return Some(s);
    }
  }

  // ----- what the list of stored lines is -----

  function NonEmpty(lines: seq<Text>): seq<Text> {
    if lines == [] then []
    else NonEmpty(lines[..|lines| - 1]) + (if lines[|lines| - 1] == [] then [] else [lines[|lines| - 1]])
  }

  function Cut(line: Text): Text {
    line[..Min(|line|, LINE_MAX)]
  }

  /** The lines, cut, without those that equal the cut form of the line before them. */
  function Kept(lines: seq<Text>): seq<Text> {
    if lines == [] then []
    else
      var n := |lines| - 1;
      if n > 0 && lines[n] == Cut(lines[n - 1]) then Kept(lines[..n]) else Kept(lines[..n]) + [Cut(lines[n])]
  }

  /** Runs of equal lines, each reduced to one line. */
  function Collapse(lines: seq<Text>): seq<Text> {
    if |lines| <= 1 then lines
    else if lines[|lines| - 1] == lines[|lines| - 2] then Collapse(lines[..|lines| - 1])
    else Collapse(lines[..|lines| - 1]) + [lines[|lines| - 1]]
  }

  lemma {:induction false} KeptLast(lines: seq<Text>)
    requires lines != []
    ensures Kept(lines) != [] && Kept(lines)[|Kept(lines)| - 1] == Cut(lines[|lines| - 1])
  {
    var n := |lines| - 1;
    if n > 0 && lines[n] == Cut(lines[n - 1]) {
      KeptLast(lines[..n]);
      CutShort(lines[n]);
    }
  }

  /** For lines of at most 255 bytes that is collapsing. */
  lemma {:induction false} KeptIsCollapse(lines: seq<Text>)
    requires forall i :: 0 <= i < |lines| ==> |lines[i]| <= LINE_MAX
    ensures Kept(lines) == Collapse(lines)
  {
    hide Cut;
    if |lines| == 1 {
      CutShort(lines[0]);
      assert Kept(lines[..0]) == [];
    } else if lines != [] {
      var n := |lines| - 1;
      var init := lines[..n];
      KeptIsCollapse(init);
      CutShort(lines[n]);
      CutShort(lines[n - 1]);
      assert Kept(lines) == if lines[n] == lines[n - 1] then Kept(init) else Kept(init) + [lines[n]];
    }
  }

  lemma {:induction false} CutShort(line: Text)
    requires |line| <= LINE_MAX
    ensures Cut(line) == line
  {
  }

  lemma {:induction false} PushAllLast(log: seq<Text>, lines: seq<Text>, line: Text)
    ensures PushAll(log, lines + [line]) == Push(PushAll(log, lines), line)
    decreases lines
  {
    if lines == [] {
      assert [line][1..] == [] && lines + [line] == [line];
    } else {
      PushAllLast(Push(log, lines[0]), lines[1..], line);
      assert (lines + [line])[1..] == lines[1..] + [line];
    }
  }

  /** After any run of pushes, what is stored is the pushed non-empty lines, cut at 255 bytes, without
      those that repeat what was stored of the one before. */
  lemma {:induction false} StoredLines(lines: seq<Text>)
    ensures PushAll([], lines) == Kept(NonEmpty(lines))
    decreases lines
  {
    hide Kept, Push, PushAll, NonEmpty;
    if lines == [] {
      NothingStored();
    } else {
      var init, line := lines[..|lines| - 1], lines[|lines| - 1];
      assert lines == init + [line];
      PushAllLast([], init, line);
      StoredLines(init);
      NonEmptyLast(lines);
      if line == [] { PushEmpty(Kept(NonEmpty(init))); } else { KeptAdd(NonEmpty(init), line); }
    }
  }

  lemma {:induction false} NothingStored()
    ensures PushAll([], []) == Kept(NonEmpty([]))
  {
  }

  lemma {:induction false} PushEmpty(log: seq<Text>)
    ensures Push(log, []) == log
  {
  }

  lemma {:induction false} NonEmptyLast(lines: seq<Text>)
    requires lines != []
    ensures var init, line := lines[..|lines| - 1], lines[|lines| - 1];
            NonEmpty(lines) == if line == [] then NonEmpty(init) else NonEmpty(init) + [line]
  {
    var init := lines[..|lines| - 1];
    assert NonEmpty(init) + [] == NonEmpty(init);
  }

  /** Keeping one more line is pushing it. */
  lemma {:induction false} KeptAdd(lines: seq<Text>, line: Text)
    requires line != []
    ensures Kept(lines + [line]) == Push(Kept(lines), line)
  {
    KeptUnfolds(lines, line);
    if lines == [] { assert Kept(lines) == []; } else { KeptLast(lines); }
  }

  lemma {:induction false} KeptUnfolds(lines: seq<Text>, line: Text)
    ensures Kept(lines + [line])
         == if lines != [] && line == Cut(lines[|lines| - 1]) then Kept(lines) else Kept(lines) + [Cut(line)]
  {
    hide Cut;
    var all := lines + [line];
    assert all[..|lines|] == lines && all[|lines|] == line;
  }

  /** Collapsing compares with the line as stored, so a line that was cut is never taken for a
      repetition: pushed twice in a row, it is stored twice if and only if it exceeds 255 bytes. */
  lemma {:induction false} RepeatedPush(log: seq<Text>, line: Text)
    requires line != [] && (log == [] || log[|log| - 1] != line)
    ensures |Push(Push(log, line), line)| == |log| + 2 <==> |line| > LINE_MAX
    ensures |line| <= LINE_MAX ==> Push(Push(log, line), line) == log + [line]
  {
    assert line[..|line|] == line;
  }
}
