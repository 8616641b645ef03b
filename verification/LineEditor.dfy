/**
 The shell's line editor, against a pair of sequences: the text before the cursor and the text after
 it. Editing shifts bytes in place; walking the history keeps the unfinished line aside.
 */
module LineEditor {

  import opened Bytes
  import History

  const MAX := 255

  type Text = seq<byte>

  // ----- the editor as a value -----

  datatype Ed = Ed(before: Text, after: Text, histPos: nat, saved: Text)

  function Line(e: Ed): Text {
    e.before + e.after
  }

  datatype Command = Insert(ch: byte) | DeleteBack | DeleteFwd | KillToEnd | KillToStart
                   | Left | Right(suggestion: Option<Text>) | Home | End | HistUp | HistDown

  /** Replace the line, cursor at the end. */
  function Show(e: Ed, line: Text): Ed {
    e.(before := line, after := [])
  }

  function Apply(e: Ed, c: Command, log: seq<Text>): Ed {
    match c
    case Insert(ch) => if |Line(e)| >= MAX then e else e.(before := e.before + [ch])
    case DeleteBack => if e.before == [] then e else e.(before := e.before[..|e.before| - 1])
    case DeleteFwd => if e.after == [] then e else e.(after := e.after[1..])
    case KillToEnd => e.(after := [])
    case KillToStart => e.(before := [])
    case Left => if e.before == [] then e
                 else e.(before := e.before[..|e.before| - 1], after := [e.before[|e.before| - 1]] + e.after)
    case Right(suggestion) =>
      if e.after != [] then e.(before := e.before + [e.after[0]], after := e.after[1..])
      else if suggestion.Some? then Show(e, suggestion.value[..Min(|suggestion.value|, MAX)])
      else e
    case Home => e.(before := [], after := Line(e))
    case End => e.(before := Line(e), after := [])
    case HistUp => Up(e, log)
    case HistDown => Down(e, log)
  }

  /** One entry further back, if there is one; leaving position 0 sets the line aside. */
  function Up(e: Ed, log: seq<Text>): Ed {
    var e1 := if e.histPos == 0 then e.(saved := Line(e)) else e;
    match History.Get(log, e.histPos + 1)
    case None => e1
    case Some(entry) => Show(e1, entry).(histPos := e.histPos + 1)
  }

  /** One entry forward; arriving at position 0 brings the line back that was set aside. */
  function Down(e: Ed, log: seq<Text>): Ed {
    if e.histPos == 0 then e
    else if e.histPos == 1 then Show(e, e.saved).(histPos := 0)
    else match History.Get(log, e.histPos - 1)
      case None => Show(e, Line(e)).(histPos := e.histPos - 1)
      case Some(entry) => Show(e, entry).(histPos := e.histPos - 1)
  }

  // ----- the draft comes back -----

  function Run(e: Ed, cs: seq<Command>, log: seq<Text>): Ed
    decreases cs
  {
    if cs == [] then e else Run(Apply(e, cs[0], log), cs[1..], log)
  }

  /** The commands stay in the history until the last one, which leaves it. */
  ghost predicate Excursion(e: Ed, cs: seq<Command>, log: seq<Text>)
    decreases cs
  {
    e.histPos > 0 && cs != []
    && var e' := Apply(e, cs[0], log);
       if |cs| == 1 then e'.histPos == 0 else Excursion(e', cs[1..], log)
  }

  /** Whatever happens away from position 0, the line set aside is what comes back, with the cursor at its end. */
  lemma {:induction false} ReturnShowsSaved(e: Ed, cs: seq<Command>, log: seq<Text>)
    requires Excursion(e, cs, log)
    ensures var r := Run(e, cs, log); r.histPos == 0 && r.before == e.saved && r.after == []
    decreases cs
  {
    var e' := Apply(e, cs[0], log);
    if |cs| == 1 {
      assert cs[1..] == [];
      assert cs[0] == HistDown;
    } else {
      assert e'.saved == e.saved;
      ReturnShowsSaved(e', cs[1..], log);
    }
  }

  /** Going up from the draft, through any mixture of history moves and edits, and back to position 0
      restores the draft. */
  lemma {:induction false} DraftRestored(e: Ed, cs: seq<Command>, log: seq<Text>)
    requires e.histPos == 0 && Excursion(Apply(e, HistUp, log), cs, log)
    ensures var r := Run(e, [HistUp] + cs, log); Line(r) == Line(e) && r.before == Line(e) && r.histPos == 0
  {
    assert ([HistUp] + cs)[1..] == cs;
    ReturnShowsSaved(Apply(e, HistUp, log), cs, log);
  }

  // ----- laws of editing -----

  /** Typing puts one byte in at the cursor while there is room, and rubbing out takes it back; rubbing
      out is stepping back and deleting; the two kills split the line at the cursor. */
  lemma {:induction false} EditLaws(e: Ed, ch: byte, log: seq<Text>)
    ensures var typed := Apply(e, Insert(ch), log);
            if |Line(e)| < MAX
            then Line(typed) == e.before + [ch] + e.after && typed.after == e.after && Apply(typed, DeleteBack, log) == e
            else typed == e
    ensures e.before == [] ==> Apply(e, DeleteBack, log) == e
    ensures e.before != [] ==> Apply(e, DeleteBack, log) == Apply(Apply(e, Left, log), DeleteFwd, log)
    ensures Line(Apply(e, KillToEnd, log)) + Line(Apply(e, KillToStart, log)) == Line(e)
    ensures Apply(e, KillToEnd, log).after == [] && Apply(e, KillToStart, log).before == []
  {
    var typed := Apply(e, Insert(ch), log);
    if |Line(e)| < MAX {
      assert (e.before + [ch])[..|e.before|] == e.before;
    }
    if e.before != [] {
      var c := e.before[|e.before| - 1];
      assert ([c] + e.after)[1..] == e.after;
    }
  }

  /** Moving the cursor never changes the line; Home and End go to its ends. */
  lemma {:induction false} MotionKeepsLine(e: Ed, log: seq<Text>)
    ensures forall c :: c in {Left, Home, End} ==> Line(Apply(e, c, log)) == Line(e)
    ensures Apply(e, Home, log).before == [] && Apply(e, End, log).after == []
  {
    if e.before != [] {
      var n := |e.before| - 1;
      assert e.before == e.before[..n] + [e.before[n]];
    }
  }

  /** A step left and a step right undo each other. */
  lemma {:induction false} StepsUndo(e: Ed, suggestion: Option<Text>, log: seq<Text>)
    ensures if e.before == [] then Apply(e, Left, log) == e
            else |Apply(e, Left, log).before| == |e.before| - 1 && Apply(Apply(e, Left, log), Right(suggestion), log) == e
    ensures e.after != [] ==> Apply(Apply(e, Right(suggestion), log), Left, log) == e
  {
    if e.before != [] {
      var n := |e.before| - 1;
      var c := e.before[n];
      assert e.before[..n] + [c] == e.before;
      assert ([c] + e.after)[1..] == e.after;
    }
    if e.after != [] {
      assert (e.before + [e.after[0]])[..|e.before|] == e.before;
      assert [e.after[0]] + e.after[1..] == e.after;
    }
  }

  /** A step right at the end of the line takes the suggestion, if there is one. */
  lemma {:induction false} SuggestionTaken(e: Ed, suggestion: Option<Text>, log: seq<Text>)
    requires e.after == []
    ensures var r := Apply(e, Right(suggestion), log);
            r.after == [] && Line(r) == if suggestion.None? then Line(e) else suggestion.value[..Min(|suggestion.value|, MAX)]
  {
    if suggestion.Some? {
      var t := suggestion.value[..Min(|suggestion.value|, MAX)];
      assert t + [] == t;
    }
  }

  function Ups(e: Ed, n: nat, log: seq<Text>): Ed {
    if n == 0 then e else Apply(Ups(e, n - 1, log), HistUp, log)
  }

  /** Going up `n` times from the draft shows the n-th newest line, cursor at its end; the oldest one on
      show stays; and one step down from there shows the line after it. */
  lemma {:induction false} UpShows(e: Ed, n: nat, log: seq<Text>)
    requires e.histPos == 0
    ensures var m := Min(n, Min(|log|, History.MAX)); var r := Ups(e, n, log);
            r.histPos == m && (m > 0 ==> r.before == log[|log| - m] && r.after == [] && r.saved == Line(e))
            && (m == 0 ==> Line(r) == Line(e))
            && (m > 1 ==> Apply(r, HistDown, log) == r.(before := log[|log| - m + 1], histPos := m - 1))
  {
    if n > 0 { UpShows(e, n - 1, log); }
  }

  // ----- the editor in place -----

  class Editor {
    const buf: array<byte>
    const aside: array<byte>
    var len: nat
    var cursor: nat
    var histPos: nat
    var savedLen: nat

    ghost predicate Valid()
      reads this
    {
      buf.Length == MAX && aside.Length == MAX && buf != aside && cursor <= len <= MAX && savedLen <= MAX
    }

    ghost function View(): Ed
      requires Valid()
      reads this, buf, aside
    {
      Ed(buf[..cursor], buf[cursor..len], histPos, aside[..savedLen])
    }

    constructor ()
      ensures Valid() && View() == Ed([], [], 0, []) && fresh(buf) && fresh(aside)
    {
      buf := new byte[MAX](_ => 0);
      aside := new byte[MAX](_ => 0);
      len, cursor, histPos, savedLen := 0, 0, 0, 0;
    }

    /** Open a gap at `at`. */
    method ShiftUp(at: nat)
      requires Valid() && at <= len < MAX
      modifies buf
      ensures buf[..at] == old(buf[..at]) && buf[at + 1..len + 1] == old(buf[at..len])
    {
      var i := len;
      while i > at
        invariant at <= i <= len
        invariant forall k :: 0 <= k < i ==> buf[k] == old(buf[k])
        invariant forall k :: i < k <= len ==> buf[k] == old(buf[k - 1])
      {
        buf[i] := buf[i - 1];
        i := i - 1;
      }
    }

    method InsertByte(ch: byte, ghost log: seq<Text>)
      requires Valid()
      modifies this`len, this`cursor, buf
      ensures Valid() && View() == Apply(old(View()), Insert(ch), log)
    {
      if len >= MAX { return; }
      ShiftUp(cursor);
      ghost var before, after := buf[..cursor], buf[cursor + 1..len + 1];
      buf[cursor] := ch;
      len := len + 1;
      cursor := cursor + 1;
      assert buf[..cursor] == before + [ch];
      assert buf[cursor..len] == after;
    }

    /** Close the gap left by the byte at `at`. */
    method ShiftDown(at: nat)
      requires Valid() && at < len
      modifies buf
      ensures buf[..at] == old(buf[..at]) && buf[at..len - 1] == old(buf[at + 1..len])
    {
      var i := at;
      while i < len - 1
        invariant at <= i <= len - 1
        invariant forall k :: 0 <= k < at ==> buf[k] == old(buf[k])
        invariant forall k :: at <= k < i ==> buf[k] == old(buf[k + 1])
        invariant forall k :: i <= k < len ==> buf[k] == old(buf[k])
      {
        buf[i] := buf[i + 1];
        i := i + 1;
      }
    }

    method Backspace(ghost log: seq<Text>)
      requires Valid()
      modifies this`len, this`cursor, buf
      ensures Valid() && View() == Apply(old(View()), DeleteBack, log)
    {
      if cursor == 0 { return; }
      ShiftDown(cursor - 1);
      len := len - 1;
      cursor := cursor - 1;
      assert old(buf[..cursor])[..cursor] == old(buf[..cursor - 1]);
    }

    method Delete(ghost log: seq<Text>)
      requires Valid()
      modifies this`len, buf
      ensures Valid() && View() == Apply(old(View()), DeleteFwd, log)
    {
      if cursor >= len { return; }
      ShiftDown(cursor);
      len := len - 1;
      assert old(buf[cursor..len])[1..] == old(buf[cursor + 1..len]);
    }

    method CutToEnd(ghost log: seq<Text>)
      requires Valid()
      modifies this`len
      ensures Valid() && View() == Apply(old(View()), KillToEnd, log)
    {
      len := cursor;
    }

    method CutToStart(ghost log: seq<Text>)
      requires Valid()
      modifies this`len, this`cursor, buf
      ensures Valid() && View() == Apply(old(View()), KillToStart, log)
    {
      var remaining := len - cursor;
      if cursor > 0 {
        var i := 0;
        while i < remaining
          invariant len == old(len) && cursor == old(cursor) && 0 <= i <= remaining
          invariant forall k :: 0 <= k < i ==> buf[k] == old(buf[cursor + k])
          invariant forall k :: i <= k < len ==> buf[k] == old(buf[k])
        {
          buf[i] := buf[cursor + i];
          i := i + 1;
        }
        assert buf[..remaining] == old(buf[cursor..len]);
      }
      len := remaining;
      cursor := 0;
    }

    /** The left arrow, Home and End. */
    method Move(c: Command, ghost log: seq<Text>)
      requires Valid() && c in {Left, Home, End}
      modifies this`cursor
      ensures Valid() && View() == Apply(old(View()), c, log)
    {
      hide Up, Down;
      ghost var before, after := buf[..cursor], buf[cursor..len];
      assert before + after == buf[..len];
      match c
      case Left => MoveLeft();
      case Home => cursor := 0;
      case End => cursor := len;
    }

    method MoveLeft()
      requires Valid()
      modifies this`cursor
      ensures Valid() && View() == Apply(old(View()), Left, [])
    {
      hide Up, Down;
      if cursor > 0 {
        ghost var before, after := buf[..cursor], buf[cursor..len];
        cursor := cursor - 1;
        assert buf[..cursor] == before[..cursor] && buf[cursor..len] == [before[cursor]] + after;
      }
    }

    /** Load a line into the buffer, cursor at its end. */
    method Load(line: Text)
      requires Valid() && |line| <= MAX
      modifies this`len, this`cursor, buf
      ensures Valid() && View() == Show(old(View()), line)
    {
      forall i | 0 <= i < |line| { buf[i] := line[i]; }
      len := |line|;
      cursor := len;
    }

    /** The right arrow, which at the end of the line takes over the suggestion on show, if any. */
    method RightArrow(suggestion: Option<Text>, ghost log: seq<Text>)
      requires Valid()
      modifies this`len, this`cursor, buf
      ensures Valid() && View() == Apply(old(View()), Right(suggestion), log)
    {
      if cursor < len {
        cursor := cursor + 1;
      } else if suggestion.Some? {
        Load(suggestion.value[..Min(|suggestion.value|, MAX)]);
      }
    }

    /** Keep a copy of the line. */
    method SetAside()
      requires Valid()
      modifies this`savedLen, aside
      ensures Valid() && View() == old(View()).(saved := Line(old(View())))
    {
      forall i | 0 <= i < len { aside[i] := buf[i]; }
      savedLen := len;
      assert aside[..savedLen] == buf[..cursor] + buf[cursor..len];
    }

    method HistoryUp(ring: History.Ring)
      requires Valid() && ring.Valid() && ring.lens as object !in {buf as object, aside}
      modifies this, buf, aside
      ensures Valid() && View() == Apply(old(View()), HistUp, ring.log)
    {
      if histPos == 0 { SetAside(); }
      var next := histPos + 1;
      var entry := ring.Lookup(next);
      if entry.Some? {
        histPos := next;
        Load(entry.value);
      }
    }

    method HistoryDown(ring: History.Ring)
      requires Valid() && ring.Valid() && ring.lens as object != buf
      modifies this, buf
      ensures Valid() && View() == Apply(old(View()), HistDown, ring.log)
    {
      hide Up, History.Get;
      if histPos == 0 { return; }
      histPos := histPos - 1;
      if histPos == 0 {
        Load(aside[..savedLen]);
      } else {
        var entry := ring.Lookup(histPos);
        if entry.Some? { Load(entry.value); }
        cursor := len;
        assert buf[..len] == old(buf[..cursor]) + old(buf[cursor..len]) || entry.Some?;
      }
    }
  }
}
