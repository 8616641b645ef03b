/**
 The directive parser and `vsnprintf`. `FormatFrom` is the text that a format string and its
 arguments stand for, unbounded; the routine is proved to leave a prefix of it in the buffer.

 A C string is the sequence of its bytes before the NUL. Variadic arguments are an endless supply of
 slots, each with the bits an integer conversion reads and the text a string conversion reads.
 `None` stands for a panic: the source's overflow, range and bounds checks, and a directive cut off
 by the end of the format, after which the source would read past the NUL.
 */
module Vsnprintf {

  import opened Bytes
  import opened Printf
  import Strtol

  /** `text` is the string the slot points to; `None` for a null pointer. */
  datatype Slot = Slot(bits: nat, text: Option<seq<byte>>)

  type VaList = nat -> Slot

  const U64 := 0x1_0000_0000_0000_0000

  // ----- integer views of a slot -----

  function Signed(v: nat, limit: nat): int
    requires limit > 0
  {
    var w := v % (2 * limit);
    if w < limit then w else w - 2 * limit
  }

  function AsCInt(s: Slot): int { Signed(s.bits, 0x8000_0000) }

  function AsCLong(s: Slot): int { Signed(s.bits, 0x8000_0000_0000_0000) }

  function AsUnsigned(s: Slot, long: bool): (r: nat)
    ensures r < U64
  {
    s.bits % (if long then U64 else 0x1_0000_0000)
  }

  // ----- the parts of a directive -----

  /** The byte at `i`, the NUL at the end. */
  function At(fmt: seq<byte>, i: nat): byte {
    if i < |fmt| then fmt[i] else 0
  }

  datatype Flags = Flags(left: bool, zero: bool, i: nat)

  function ParseFlags(fmt: seq<byte>, f: Flags): (r: Flags)
    ensures f.i <= r.i && (f.i <= |fmt| ==> r.i <= |fmt|)
    decreases |fmt| - f.i
  {
    if f.i >= |fmt| then f
    else if fmt[f.i] == 45 then ParseFlags(fmt, f.(left := true, i := f.i + 1))
    else if fmt[f.i] == ZERO then ParseFlags(fmt, f.(zero := true, i := f.i + 1))
    else if fmt[f.i] in {43, 32, 35} then ParseFlags(fmt, f.(i := f.i + 1))
    else f
  }

  predicate IsDecimal(c: byte) { ZERO <= c <= ZERO + 9 }

  function ParseNumber(fmt: seq<byte>, i: nat, acc: nat): (r: (nat, nat))
    ensures i <= r.1 && (i <= |fmt| ==> r.1 <= |fmt|)
    decreases |fmt| - i
  {
    if i < |fmt| && IsDecimal(fmt[i]) then ParseNumber(fmt, i + 1, acc * 10 + (fmt[i] - ZERO)) else (acc, i)
  }

  /** Width: digits, or a star that takes an int, whose sign asks for left adjustment. A number of 64
      bits or more, and an int that cannot be negated, have no width. */
  datatype Width = Width(left: bool, width: nat, i: nat, k: nat)

  function ParseWidth(fmt: seq<byte>, f: Flags, args: VaList, k: nat): (r: Option<Width>)
    ensures r.Some? ==> f.i <= r.value.i && (f.i <= |fmt| ==> r.value.i <= |fmt|)
  {
    var (w, i) := ParseNumber(fmt, f.i, 0);
    if w >= U64 then None
    else if At(fmt, i) != STAR then Some(Width(f.left, w, i, k))
    else
      var v := AsCInt(args(k));
      if v == -0x8000_0000 then None
      else Some(Width(f.left || v < 0, if v < 0 then -v else v, i + 1, k + 1))
  }

  datatype Precision = Precision(prec: Option<nat>, i: nat, k: nat)

  /** Precision: none, digits, or a star whose negative value counts as none. */
  function ParsePrecision(fmt: seq<byte>, i: nat, args: VaList, k: nat): (r: Option<Precision>)
    ensures r.Some? ==> i <= r.value.i && (i <= |fmt| ==> r.value.i <= |fmt|)
  {
    if At(fmt, i) != DOT then Some(Precision(None, i, k))
    else
      var (p, j) := ParseNumber(fmt, i + 1, 0);
      if p >= U64 then None
      else if At(fmt, j) != STAR then Some(Precision(Some(p), j, k))
      else
        var v := AsCInt(args(k));
        Some(Precision(if v >= 0 then Some(v) else None, j + 1, k + 1))
  }

  /** Length modifier: whether integers are 64 bits wide, and where the conversion is. */
  function ParseLength(fmt: seq<byte>, i: nat): (r: (bool, nat))
    ensures i <= r.1 && (i <= |fmt| ==> r.1 <= |fmt|)
  {
    var c := At(fmt, i);
    if c == 108 then (true, if At(fmt, i + 1) == 108 then i + 2 else i + 1)          // l, ll
    else if c == 104 then (false, if At(fmt, i + 1) == 104 then i + 2 else i + 1)    // h, hh
    else if c in {122, 106, 116} then (true, i + 1)                                  // z, j, t
    else (false, i)
  }

  // ----- conversions -----

  datatype Directive = Directive(left: bool, zero: bool, width: nat, prec: Option<nat>, long: bool, conv: byte)

  /** A precision above 64 overruns the digit buffer. */
  predicate DigitsFit(prec: Option<nat>) {
    prec.Some? ==> prec.value <= 64
  }

  const NULL_TEXT: seq<byte> := [40, 110, 117, 108, 108, 41]   // "(null)"

  predicate TakesArgument(conv: byte) {
    conv in {100, 105, 117, 120, 88, 111, 112, 115, 99}
  }

  /** The text of one conversion. */
  function Convert(d: Directive, s: Slot): Option<seq<byte>> {
    if d.conv == 100 || d.conv == 105 then   // d, i
      var v := if d.long then AsCLong(s) else AsCInt(s);
      if v == -0x8000_0000_0000_0000 || !DigitsFit(d.prec) then None
      else Some(FmtUint(if v < 0 then -v else v, 10, false, v < 0, d.width, d.prec, d.zero, d.left))
    else if d.conv in {117, 120, 88, 111} then   // u, x, X, o
      if !DigitsFit(d.prec) then None
      else Some(FmtUint(AsUnsigned(s, d.long), Base(d.conv), d.conv == 88, false, d.width, d.prec, d.zero, d.left))
    else if d.conv == 112 then   // p
      Some([ZERO, 120] + FmtUint(AsUnsigned(s, true), 16, false, false, 0, Some(1), false, false))
    else if d.conv == 115 then   // s
      var full := if s.text.Some? then s.text.value else NULL_TEXT;
      Some(FmtStr(if d.prec.Some? then full[..Min(d.prec.value, |full|)] else full, d.width, d.left))
    else if d.conv == 99 then    // c
      if AsCInt(s) < 0 then None else Some(FmtStr([AsCInt(s) % 256], d.width, d.left))
    else if d.conv == PERCENT then Some([PERCENT])
    else Some([])
  }

  function Base(conv: byte): (b: nat)
    ensures b in {8, 10, 16}
  {
    if conv == 117 then 10 else if conv == 111 then 8 else 16
  }

  datatype Parsed = Parsed(d: Directive, i: nat, k: nat)

  /** The directive that starts at `i`, just after its percent sign; `i` of the result is its conversion. */
  function ParseDirective(fmt: seq<byte>, i: nat, args: VaList, k: nat): (r: Option<Parsed>)
    requires i <= |fmt|
    ensures r.Some? ==> i <= r.value.i <= |fmt|
  {
    var f := ParseFlags(fmt, Flags(false, false, i));
    match ParseWidth(fmt, f, args, k)
    case None => None
    case Some(w) =>
      match ParsePrecision(fmt, w.i, args, w.k)
      case None => None
      case Some(p) =>
      var (long, j) := ParseLength(fmt, p.i);
      Some(Parsed(Directive(w.left, f.zero, w.width, p.prec, long, At(fmt, j)), j, p.k))
  }

  /** The text of the format from `i` on, taking arguments from slot `k` on. */
  function FormatFrom(fmt: seq<byte>, i: nat, args: VaList, k: nat): Option<seq<byte>>
    requires i <= |fmt|
    decreases |fmt| - i
  {
    if i == |fmt| then Some([])
    else if fmt[i] != PERCENT then Prepend([fmt[i]], FormatFrom(fmt, i + 1, args, k))
    else
      match ParseDirective(fmt, i + 1, args, k)
      case None => None
      case Some(p) =>
        match Convert(p.d, args(p.k))
        case None => None
        case Some(text) =>
          if p.i == |fmt| then None
          else Prepend(text, FormatFrom(fmt, p.i + 1, args, if TakesArgument(p.d.conv) then p.k + 1 else p.k))
  }

  function Prepend(s: seq<byte>, r: Option<seq<byte>>): Option<seq<byte>> {
    if r.Some? then Some(s + r.value) else None
  }

  // ----- the parser as written -----

  method FlagLoop(fmt: seq<byte>, i0: nat) returns (f: Flags)
    requires i0 <= |fmt|
    ensures f == ParseFlags(fmt, Flags(false, false, i0))
  {
    f := Flags(false, false, i0);
    while f.i < |fmt| && fmt[f.i] in {45, ZERO, 43, 32, 35}
      invariant f.i <= |fmt| && ParseFlags(fmt, f) == ParseFlags(fmt, Flags(false, false, i0))
      decreases |fmt| - f.i
    {
      if fmt[f.i] == 45 {
        f := f.(left := true, i := f.i + 1);
      } else if fmt[f.i] == ZERO {
        f := f.(zero := true, i := f.i + 1);
      } else {
        f := f.(i := f.i + 1);
      }
    }
  }

  lemma {:induction false} NumberGrows(fmt: seq<byte>, i: nat, acc: nat)
    ensures ParseNumber(fmt, i, acc).0 >= acc
    decreases |fmt| - i
  {
    if i < |fmt| && IsDecimal(fmt[i]) { NumberGrows(fmt, i + 1, acc * 10 + (fmt[i] - ZERO)); }
  }

  /** The digit loop, which stops at the first value of 64 bits or more. */
  method NumberLoop(fmt: seq<byte>, i0: nat) returns (ok: bool, n: nat, i: nat)
    requires i0 <= |fmt|
    ensures ok <==> ParseNumber(fmt, i0, 0).0 < U64
    ensures ok ==> (n, i) == ParseNumber(fmt, i0, 0)
  {
    n, i := 0, i0;
    while i < |fmt| && IsDecimal(fmt[i])
      invariant i <= |fmt| && n < U64 && ParseNumber(fmt, i, n) == ParseNumber(fmt, i0, 0)
    {
      n := n * 10 + (fmt[i] - ZERO);
      i := i + 1;
      if n >= U64 {
        NumberGrows(fmt, i, n);
        return false, n, i;
      }
    }
    ok := true;
  }

  method ReadWidth(fmt: seq<byte>, f: Flags, args: VaList, k: nat) returns (r: Option<Width>)
    requires f.i <= |fmt|
    ensures r == ParseWidth(fmt, f, args, k)
  {
    var ok, width, i := NumberLoop(fmt, f.i);
    if !ok { return None; }
    if At(fmt, i) != STAR { return Some(Width(f.left, width, i, k)); }
    var left, v := f.left, AsCInt(args(k));
    if v == -0x8000_0000 { return None; }
    if v < 0 {
      left := true;
      width := -v;
    } else {
      width := v;
    }
    return Some(Width(left, width, i + 1, k + 1));
  }

  method ReadPrecision(fmt: seq<byte>, i0: nat, args: VaList, k: nat) returns (r: Option<Precision>)
    requires i0 <= |fmt|
    ensures r == ParsePrecision(fmt, i0, args, k)
  {
    if At(fmt, i0) != DOT { return Some(Precision(None, i0, k)); }
    var ok, p, i := NumberLoop(fmt, i0 + 1);
    if !ok { return None; }
    if At(fmt, i) != STAR { return Some(Precision(Some(p), i, k)); }
    var v := AsCInt(args(k));
    var prec: Option<nat> := None;
    if v >= 0 { prec := Some(v); }
    return Some(Precision(prec, i + 1, k + 1));
  }

  method ReadDirective(fmt: seq<byte>, i: nat, args: VaList, k: nat) returns (r: Option<Parsed>)
    requires i <= |fmt|
    ensures r == ParseDirective(fmt, i, args, k)
  {
    var f := FlagLoop(fmt, i);
    var w := ReadWidth(fmt, f, args, k);
    if w == None { return None; }
    var p := ReadPrecision(fmt, w.value.i, args, w.value.k);
    if p == None { return None; }
    var (long, j) := ParseLength(fmt, p.value.i);
    return Some(Parsed(Directive(w.value.left, f.zero, w.value.width, p.value.prec, long, At(fmt, j)), j, p.value.k));
  }

  /** One conversion into the writer; false where the source would panic. */
  method PutConversion(w: Writer, d: Directive, s: Slot) returns (ok: bool)
    requires w.Valid()
    modifies w, w.buf
    ensures w.Valid() && ok == Convert(d, s).Some? && (ok ==> w.full == old(w.full) + Convert(d, s).value)
  {
    hide FmtUint, FmtStr;
    if d.conv == 100 || d.conv == 105 {
      var v := if d.long then AsCLong(s) else AsCInt(s);
      if v == -0x8000_0000_0000_0000 || !DigitsFit(d.prec) { return false; }
      w.PutUint(if v < 0 then -v else v, 10, false, v < 0, d.width, d.prec, d.zero, d.left);
    } else if d.conv in {117, 120, 88, 111} {
      if !DigitsFit(d.prec) { return false; }
      w.PutUint(AsUnsigned(s, d.long), Base(d.conv), d.conv == 88, false, d.width, d.prec, d.zero, d.left);
    } else if d.conv == 112 {
      w.PutByte(ZERO);
      w.PutByte(120);
      w.PutUint(AsUnsigned(s, true), 16, false, false, 0, Some(1), false, false);
    } else if d.conv == 115 {
      var full := if s.text.Some? then s.text.value else NULL_TEXT;
      w.PutField(if d.prec.Some? then full[..Min(d.prec.value, |full|)] else full, d.width, d.left);
    } else if d.conv == 99 {
      if AsCInt(s) < 0 { return false; }
      w.PutField([AsCInt(s) % 256], d.width, d.left);
    } else if d.conv == PERCENT {
      w.PutByte(PERCENT);
    }
    return true;
  }

  method FormatV(w: Writer, fmt: seq<byte>, args: VaList) returns (ok: bool)
    requires w.Valid() && w.full == []
    modifies w, w.buf
    ensures w.Valid() && ok == FormatFrom(fmt, 0, args, 0).Some? && (ok ==> w.full == FormatFrom(fmt, 0, args, 0).value)
  {
    hide ParseDirective, Convert;
    var i, k := 0, 0;
    PrependNothing(FormatFrom(fmt, 0, args, 0));
    while i < |fmt|
      invariant 0 <= i <= |fmt| && k >= 0 && w.Valid()
      invariant Prepend(w.full, FormatFrom(fmt, i, args, k)) == FormatFrom(fmt, 0, args, 0)
    {
      ghost var done := w.full;
      if fmt[i] != PERCENT {
        w.PutByte(fmt[i]);
        PrependPrepend(done, [fmt[i]], FormatFrom(fmt, i + 1, args, k));
        i := i + 1;
        continue;
      }
      var parsed := ReadDirective(fmt, i + 1, args, k);
      if parsed == None { return false; }
      var p := parsed.value;
      var fine := PutConversion(w, p.d, args(p.k));
      if !fine { return false; }
      if p.i == |fmt| { return false; }
      ghost var k' := if TakesArgument(p.d.conv) then p.k + 1 else p.k;
      PrependPrepend(done, Convert(p.d, args(p.k)).value, FormatFrom(fmt, p.i + 1, args, k'));
      k := if TakesArgument(p.d.conv) then p.k + 1 else p.k;
      i := p.i + 1;
    }
    return true;
  }

  lemma {:induction false} PrependPrepend(a: seq<byte>, b: seq<byte>, r: Option<seq<byte>>)
    ensures Prepend(a, Prepend(b, r)) == Prepend(a + b, r)
  {
    if r.Some? { assert a + (b + r.value) == a + b + r.value; }
  }

  lemma {:induction false} PrependNothing(r: Option<seq<byte>>)
    ensures Prepend([], r) == r
  {
    if r.Some? { assert [] + r.value == r.value; }
  }

  lemma {:induction false} Terminated(kept: seq<byte>, text: seq<byte>, before: seq<byte>, m: nat)
    requires m <= |text| && m < |before|
    requires kept == text[..m] + before[m..]
    ensures m < |kept| && kept[m := 0] == text[..m] + [0] + before[m + 1..]
  {
  }

  /** Put the NUL behind what the writer has kept. */
  method Terminate(w: Writer)
    requires w.Valid() && w.cap < w.buf.Length
    modifies w.buf
    ensures w.len == |w.full| && |w.before| == w.buf.Length
    ensures w.buf[..] == w.full[..Min(w.len, w.cap)] + [0] + w.before[Min(w.len, w.cap) + 1..]
  {
    var m := if w.len <= w.cap then w.len else w.cap;
    ghost var kept := w.buf[..];
    Terminated(kept, w.full, w.before, m);
    w.buf[m] := 0;
    assert w.buf[..] == kept[m := 0];
  }

  /** Bounded formatting. For n > 0 and a format that stands for `text`, the buffer then holds the
      first min(|text|, n - 1) bytes of it, a NUL right after them, and its old contents from there
      on; the result is the length of the whole text. For n = 0 nothing is written and the result
      is 0, whatever the text. */
  method Snprintf(s: array<byte>, n: nat, fmt: seq<byte>, args: VaList) returns (r: Option<nat>)
    requires n <= s.Length
    modifies s
    ensures n == 0 ==> r == Some(0) && s[..] == old(s[..])
    ensures n > 0 ==>
              match FormatFrom(fmt, 0, args, 0)
              case None => r == None
              case Some(text) =>
                if |text| > 0x7FFF_FFFF then r == None
                else var m := Min(|text|, n - 1);
                     r == Some(|text|) && s[..] == text[..m] + [0] + old(s[..])[m + 1..]
  {
    hide FormatFrom, Writer.Valid;
    if n == 0 { return Some(0); }
    var w := new Writer(s, n - 1);
    var ok := FormatV(w, fmt, args);
    if !ok { return None; }
    Terminate(w);
    if w.len > 0x7FFF_FFFF { return None; }
    return Some(w.len);
  }

  // ----- laws of the format language -----

  /** Double every percent sign. */
  function Escape(t: seq<byte>): seq<byte> {
    if t == [] then [] else (if t[0] == PERCENT then [PERCENT, PERCENT] else [t[0]]) + Escape(t[1..])
  }

  lemma {:induction false} PercentDirective(fmt: seq<byte>, i: nat, args: VaList, k: nat)
    requires i < |fmt| && fmt[i] == PERCENT
    ensures ParseDirective(fmt, i, args, k) == Some(Parsed(Directive(false, false, 0, None, false, PERCENT), i, k))
  {
  }

  /** Any text, escaped and formatted, comes out as itself. */
  lemma {:induction false} FormatEscaped(pre: seq<byte>, t: seq<byte>, args: VaList, k: nat)
    ensures FormatFrom(pre + Escape(t), |pre|, args, k) == Some(t)
    decreases t
  {
    hide ParseDirective;
    var fmt := pre + Escape(t);
    if t != [] {
      var head: seq<byte> := if t[0] == PERCENT then [PERCENT, PERCENT] else [t[0]];
      FormatEscaped(pre + head, t[1..], args, k);
      assert pre + head + Escape(t[1..]) == fmt;
      assert t == [t[0]] + t[1..];
      assert fmt[|pre|] == t[0];
      if t[0] == PERCENT {
        assert fmt[|pre| + 1] == PERCENT;
        PercentDirective(fmt, |pre| + 1, args, k);
      }
    }
  }

  const LONG_DECIMAL: seq<byte> := [PERCENT, 108, 100]   // "%ld"

  lemma {:induction false} LongDecimalText(args: VaList)
    requires AsCLong(args(0)) != -0x8000_0000_0000_0000
    ensures var v := AsCLong(args(0));
            FormatFrom(LONG_DECIMAL, 0, args, 0)
            == Some(FmtUint(if v < 0 then -v else v, 10, false, v < 0, 0, None, false, false))
  {
    hide FmtUint;
    var d := Directive(false, false, 0, None, true, 100);
    assert ParseDirective(LONG_DECIMAL, 1, args, 0) == Some(Parsed(d, 2, 0));
    var text := Convert(d, args(0)).value;
    assert FormatFrom(LONG_DECIMAL, 3, args, 1) == Some([]);
    assert text + [] == text;
  }

  /** Printing a long with "%ld" and parsing it in base 10 gives it back, for every value the
      formatter accepts. */
  lemma {:induction false} PrintThenParse(args: VaList)
    requires AsCLong(args(0)) != -0x8000_0000_0000_0000
    ensures FormatFrom(LONG_DECIMAL, 0, args, 0).Some?
    ensures Strtol.Strtol(FormatFrom(LONG_DECIMAL, 0, args, 0).value, 10).0 == AsCLong(args(0))
  {
    hide FormatFrom, FmtUint, Strtol.Strtol;
    LongDecimalText(args);
    var v := AsCLong(args(0));
    Strtol.StrtolUndoesFmtUint(if v < 0 then -v else v, 10, false, v < 0, 0, None, false, false);
  }
}
