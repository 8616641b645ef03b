/**
 The number parser, and the law that ties it to the formatter: parsing undoes printing.
 A C string is the sequence of its bytes before the NUL.
 */
module Strtol {

  import opened Arithmetic
  import opened Bytes
  import opened Printf

  const TAB := 9
  const PLUS := 43
  const LONG_LIMIT := 0x8000_0000_0000_0000

  // ----- the parser as a function -----

  function SkipBlanks(s: seq<byte>): seq<byte> {
    if s != [] && (s[0] == SPACE || s[0] == TAB) then SkipBlanks(s[1..]) else s
  }

  /** The value of a digit or letter, if the byte is one. */
  function DigitValue(c: byte): Option<nat> {
    if 48 <= c <= 57 then Some(c - 48)
    else if 97 <= c <= 122 then Some(c - 97 + 10)
    else if 65 <= c <= 90 then Some(c - 65 + 10)
    else None
  }

  predicate IsDigit(c: byte, base: nat) {
    DigitValue(c).Some? && DigitValue(c).value < base
  }

  /** Digits of the base from the front, added to `acc`, and what follows them. */
  function ParseDigits(s: seq<byte>, base: nat, acc: nat): (nat, seq<byte>)
    decreases |s|
  {
    if s == [] || !IsDigit(s[0], base) then (acc, s)
    else ParseDigits(s[1..], base, acc * base + DigitValue(s[0]).value)
  }

  /** The value only grows, so no partial value is larger than the result. */
  lemma {:induction false} ParseGrows(s: seq<byte>, base: nat, acc: nat)
    requires base > 0
    ensures ParseDigits(s, base, acc).0 >= acc
    decreases |s|
  {
    if s != [] && IsDigit(s[0], base) {
      assert acc * base >= acc;
      ParseGrows(s[1..], base, acc * base + DigitValue(s[0]).value);
    }
  }

  /** The base to use and where the digits start: base 0 reads the C prefixes 0 and 0x. */
  function DetectBase(s: seq<byte>, base: nat): (nat, seq<byte>) {
    if base != 0 then (base, s)
    else if s == [] || s[0] != ZERO then (10, s)
    else if |s| > 1 && (s[1] == 120 || s[1] == 88) then (16, s[2..])
    else (8, s[1..])
  }

  predicate Negative(s: seq<byte>) {
    s != [] && s[0] == MINUS
  }

  function DropSign(s: seq<byte>): seq<byte> {
    if s != [] && (s[0] == MINUS || s[0] == PLUS) then s[1..] else s
  }

  /** The value, and the unparsed rest. */
  function Strtol(s: seq<byte>, base: nat): (int, seq<byte>) {
    var s1 := SkipBlanks(s);
    var (b, s2) := DetectBase(DropSign(s1), base);
    var (v, rest) := ParseDigits(s2, b, 0);
    (if Negative(s1) then -(v as int) else v, rest)
  }

  // ----- the parser as written -----

  /** `end` is the index of the first byte not parsed. The value has to fit a `long`. */
  method StrtolAt(s: seq<byte>, base0: nat) returns (value: int, end: nat)
    requires -LONG_LIMIT < Strtol(s, base0).0 < LONG_LIMIT
    ensures end <= |s| && (value, s[end..]) == Strtol(s, base0)
  {
    hide ParseDigits, SkipBlanks;
    var base := base0;
    var i := BlankLoop(s);
    ghost var s1 := s[i..];
    var neg := false;
    if i < |s| && s[i] == MINUS {
      neg := true;
      i := i + 1;
    } else if i < |s| && s[i] == PLUS {
      i := i + 1;
    }
    assert s[i..] == DropSign(s1);
    if base == 0 {
      base := 10;
      if i < |s| && s[i] == ZERO {
        base := 8;
        i := i + 1;
        if i < |s| && (s[i] == 120 || s[i] == 88) {
          base := 16;
          i := i + 1;
        }
      }
    }
    assert (base, s[i..]) == DetectBase(DropSign(s1), base0);
    var v;
    v, end := DigitLoop(s, i, base);
    value := if neg then -v else v;
  }

  method BlankLoop(s: seq<byte>) returns (i: nat)
    ensures i <= |s| && s[i..] == SkipBlanks(s)
  {
    i := 0;
    assert s[0..] == s;
    while i < |s| && (s[i] == SPACE || s[i] == TAB)
      invariant i <= |s| && SkipBlanks(s[i..]) == SkipBlanks(s)
    {
      assert s[i..][1..] == s[i + 1..];
      i := i + 1;
    }
  }

  method DigitLoop(s: seq<byte>, start: nat, base: nat) returns (v: int, i: nat)
    requires start <= |s| && base > 0 && ParseDigits(s[start..], base, 0).0 < LONG_LIMIT
    ensures i <= |s| && (v, s[i..]) == ParseDigits(s[start..], base, 0)
  {
    i := start;
    var acc: nat := 0;
    while i < |s| && IsDigit(s[i], base)
      invariant start <= i <= |s| && acc < LONG_LIMIT
      invariant ParseDigits(s[i..], base, acc) == ParseDigits(s[start..], base, 0)
    {
      assert s[i..][1..] == s[i + 1..];
      ParseGrows(s[i + 1..], base, acc * base + DigitValue(s[i]).value);
      acc := acc * base + DigitValue(s[i]).value;
      i := i + 1;
    }
    v := acc;
  }

  // ----- parsing undoes printing -----

  lemma {:induction false} DigitRoundTrip(d: nat, base: nat, upper: bool)
    requires d < base <= 16
    ensures DigitValue(Digit(d, upper)) == Some(d) && IsDigit(Digit(d, upper), base)
  {
  }

  lemma {:induction false} ParseOne(c: byte, t: seq<byte>, base: nat, acc: nat)
    requires IsDigit(c, base)
    ensures ParseDigits([c] + t, base, acc) == ParseDigits(t, base, acc * base + DigitValue(c).value)
  {
    assert ([c] + t)[1..] == t;
  }

  lemma {:induction false} ParseZeros(n: nat, t: seq<byte>, base: nat)
    requires base >= 2
    ensures ParseDigits(Repeat(ZERO, n) + t, base, 0) == ParseDigits(t, base, 0)
  {
    if n == 0 {
      assert Repeat(ZERO, n) + t == t;
    } else {
      assert Repeat(ZERO, n) + t == [ZERO] + (Repeat(ZERO, n - 1) + t);
      ParseOne(ZERO, Repeat(ZERO, n - 1) + t, base, 0);
      ParseZeros(n - 1, t, base);
    }
  }

  lemma {:induction false} ParseDigitsOf(v: nat, base: nat, upper: bool, t: seq<byte>)
    requires 2 <= base <= 16
    ensures ParseDigits(Reverse(Digits(v, base, upper)) + t, base, 0) == ParseDigits(t, base, v)
    decreases v
  {
    hide Quot, Rem;
    if v == 0 {
      assert Reverse(Digits(v, base, upper)) + t == t;
    } else {
      var d, q := Rem(v, base), Quot(v, base);
      var c := Digit(d, upper);
      assert Digits(v, base, upper)[1..] == Digits(q, base, upper);
      assert Reverse(Digits(v, base, upper)) + t == Reverse(Digits(q, base, upper)) + ([c] + t);
      DivMod(v, base);
      ParseDigitsOf(q, base, upper, [c] + t);
      DigitRoundTrip(d, base, upper);
      ParseOne(c, t, base, q);
    }
  }

  lemma {:induction false} ReverseConcat(a: seq<byte>, n: nat)
    ensures Reverse(a + Repeat(ZERO, n)) == Repeat(ZERO, n) + Reverse(a)
  {
    if a == [] {
      ReverseZeros(n);
      assert a + Repeat(ZERO, n) == Repeat(ZERO, n);
    } else {
      assert (a + Repeat(ZERO, n))[1..] == a[1..] + Repeat(ZERO, n);
      ReverseConcat(a[1..], n);
    }
  }

  lemma {:induction false} ReverseZeros(n: nat)
    ensures Reverse(Repeat(ZERO, n)) == Repeat(ZERO, n)
  {
    if n > 0 {
      assert Repeat(ZERO, n)[1..] == Repeat(ZERO, n - 1);
      ReverseZeros(n - 1);
    }
  }

  /** The digit field, with any zeros in front of it, reads as its value. */
  lemma {:induction false} ParseField(zeros: nat, v: nat, base: nat, upper: bool, prec: Option<nat>, t: seq<byte>)
    requires 2 <= base <= 16 && (t == [] || !IsDigit(t[0], base))
    ensures ParseDigits(Repeat(ZERO, zeros) + Reverse(DigitField(v, base, upper, prec)) + t, base, 0) == (v, t)
  {
    var ds := if v == 0 && prec != Some(0) then [ZERO] else Digits(v, base, upper);
    var m := Pad(if prec.Some? then prec.value else 0, |ds|);
    ReverseConcat(ds, m);
    assert Repeat(ZERO, zeros) + (Repeat(ZERO, m) + Reverse(ds)) + t == Repeat(ZERO, zeros) + (Repeat(ZERO, m) + (Reverse(ds) + t));
    ParseZeros(zeros, Repeat(ZERO, m) + (Reverse(ds) + t), base);
    ParseZeros(m, Reverse(ds) + t, base);
    if v == 0 && prec != Some(0) {
      assert Reverse(ds) == Repeat(ZERO, 1);
      ParseZeros(1, t, base);
    } else {
      ParseDigitsOf(v, base, upper, t);
    }
  }

  lemma {:induction false} SkipSpaces(n: nat, t: seq<byte>)
    ensures SkipBlanks(Repeat(SPACE, n) + t) == SkipBlanks(t)
  {
    if n == 0 {
      assert Repeat(SPACE, n) + t == t;
    } else {
      assert (Repeat(SPACE, n) + t)[1..] == Repeat(SPACE, n - 1) + t;
      SkipSpaces(n - 1, t);
    }
  }

  /** Every printed byte of a digit field is a digit of the base: no blank, no sign. */
  lemma {:induction false} FieldIsDigits(v: nat, base: nat, upper: bool, prec: Option<nat>)
    requires 2 <= base <= 16
    ensures forall c :: c in DigitField(v, base, upper, prec) ==> IsDigit(c, base)
  {
    DigitsAreDigits(v, base, upper);
  }

  lemma {:induction false} DigitsAreDigits(v: nat, base: nat, upper: bool)
    requires 2 <= base <= 16
    ensures forall c :: c in Digits(v, base, upper) ==> IsDigit(c, base)
  {
    if v > 0 {
      DivMod(v, base);
      DigitsAreDigits(Quot(v, base), base, upper);
    }
  }

  lemma {:induction false} ReverseMembers(s: seq<byte>)
    ensures forall c :: c in Reverse(s) ==> c in s
  {
    if s != [] { ReverseMembers(s[1..]); }
  }

  /** Digits with no sign in front. */
  lemma {:induction false} ReadUnsigned(zeros: nat, v: nat, base: nat, upper: bool, prec: Option<nat>, t: seq<byte>)
    requires 2 <= base <= 16 && (t == [] || t[0] == SPACE)
    requires DigitField(v, base, upper, prec) != [] || t == []
    ensures Strtol(Repeat(ZERO, zeros) + Reverse(DigitField(v, base, upper, prec)) + t, base) == (v as int, t)
  {
    hide DigitField, ParseDigits;
    var body := Reverse(DigitField(v, base, upper, prec));
    var s := Repeat(ZERO, zeros) + body + t;
    ParseField(zeros, v, base, upper, prec, t);
    FieldIsDigits(v, base, upper, prec);
    ReverseMembers(DigitField(v, base, upper, prec));
    if s != [] {
      assert s[0] == (if zeros > 0 then ZERO else body[0]);
      assert zeros == 0 ==> body[0] in body;
      assert IsDigit(s[0], base);
    }
  }

  /** Digits after a minus sign. */
  lemma {:induction false} ReadNegative(zeros: nat, v: nat, base: nat, upper: bool, prec: Option<nat>, t: seq<byte>)
    requires 2 <= base <= 16 && (t == [] || t[0] == SPACE)
    ensures Strtol([MINUS] + Repeat(ZERO, zeros) + Reverse(DigitField(v, base, upper, prec)) + t, base) == (-(v as int), t)
  {
    hide DigitField, ParseDigits;
    var rest := Repeat(ZERO, zeros) + Reverse(DigitField(v, base, upper, prec)) + t;
    var s := [MINUS] + Repeat(ZERO, zeros) + Reverse(DigitField(v, base, upper, prec)) + t;
    assert s == [MINUS] + rest && s[1..] == rest;
    ParseField(zeros, v, base, upper, prec, t);
  }

  lemma {:induction false} Signed(negative: bool, zeros: nat, v: nat, base: nat, upper: bool, prec: Option<nat>, t: seq<byte>)
    requires 2 <= base <= 16 && (t == [] || t[0] == SPACE)
    requires DigitField(v, base, upper, prec) != [] || t == [] || negative
    ensures var sign: seq<byte> := if negative then [MINUS] else [];
            Strtol(sign + Repeat(ZERO, zeros) + Reverse(DigitField(v, base, upper, prec)) + t, base)
            == (if negative then -(v as int) else v, t)
  {
    if negative {
      ReadNegative(zeros, v, base, upper, prec, t);
    } else {
      assert [] + Repeat(ZERO, zeros) == Repeat(ZERO, zeros);
      ReadUnsigned(zeros, v, base, upper, prec, t);
    }
  }

  /** Leading spaces change nothing. */
  lemma {:induction false} Indented(n: nat, t: seq<byte>, base: nat)
    ensures Strtol(Repeat(SPACE, n) + t, base) == Strtol(t, base)
  {
    SkipSpaces(n, t);
  }

  /** The value and the length of every printed integer: for each magnitude, sign, width, precision,
      flag and base 8, 10 or 16 (indeed 2 to 16), parsing the text in that base gives the number
      back, and the text is as long as the wider of the width and the digits with their sign. */
  lemma {:induction false} StrtolUndoesFmtUint(v: nat, base: nat, upper: bool, negative: bool, width: nat, prec: Option<nat>, zeroPad: bool, left: bool)
    requires 2 <= base <= 16
    ensures var text := FmtUint(v, base, upper, negative, width, prec, zeroPad, left);
            Strtol(text, base).0 == (if negative then -(v as int) else v)
            && |text| == Max(width, |DigitField(v, base, upper, prec)| + (if negative then 1 else 0))
  {
    hide Strtol, DigitField, FmtUint, Prefix, Reverse;
    var body := Reverse(DigitField(v, base, upper, prec));
    var pad := Pad(width, |body| + (if negative then 1 else 0));
    FmtUintParts([], v, base, upper, negative, width, prec, zeroPad, left, pad);
    var text := FmtUint(v, base, upper, negative, width, prec, zeroPad, left);
    assert [] + text == text;
    var pre := Prefix(negative, pad, zeroPad && prec == None, left);
    assert [] + pre + body == pre + body;
    PrefixLength(negative, pad, zeroPad && prec == None, left);
    if left {
      ReadLeft(negative, v, base, upper, prec, pad);
      assert Prefix(negative, pad, zeroPad && prec == None, true) == Prefix(negative, pad, false, true) by { LeftPrefix(negative, pad); }
    } else {
      ReadRight(negative, v, base, upper, prec, pad, zeroPad && prec == None);
    }
  }

  lemma {:induction false} PrefixLength(negative: bool, pad: nat, zeros: bool, left: bool)
    ensures |Prefix(negative, pad, zeros, left)| == (if negative then 1 else 0) + (if left then 0 else pad)
  {
  }

  lemma {:induction false} LeftPrefix(negative: bool, pad: nat)
    ensures Prefix(negative, pad, true, true) == Prefix(negative, pad, false, true)
         == (if negative then [MINUS] else [])
  {
  }

  lemma {:induction false} ReadLeft(negative: bool, v: nat, base: nat, upper: bool, prec: Option<nat>, pad: nat)
    requires 2 <= base <= 16
    ensures Strtol(Prefix(negative, pad, false, true) + Reverse(DigitField(v, base, upper, prec)) + Repeat(SPACE, pad), base).0
         == (if negative then -(v as int) else v)
  {
    hide Strtol, DigitField, Prefix, Reverse;
    LeftPrefix(negative, pad);
    var sign: seq<byte> := if negative then [MINUS] else [];
    var body, t := Reverse(DigitField(v, base, upper, prec)), Repeat(SPACE, pad);
    if body != [] || negative || pad == 0 {
      Signed(negative, 0, v, base, upper, prec, t);
      assert sign + Repeat(ZERO, 0) == sign;
    } else {
      BlankField(v, base, upper, prec, pad);
      assert sign + body + t == t;
    }
  }

  lemma {:induction false} ReadRight(negative: bool, v: nat, base: nat, upper: bool, prec: Option<nat>, pad: nat, zeros: bool)
    requires 2 <= base <= 16
    ensures Strtol(Prefix(negative, pad, zeros, false) + Reverse(DigitField(v, base, upper, prec)), base).0
         == (if negative then -(v as int) else v)
  {
    hide Strtol, DigitField, Reverse;
    var sign: seq<byte> := if negative then [MINUS] else [];
    var body := Reverse(DigitField(v, base, upper, prec));
    Signed(negative, if zeros then pad else 0, v, base, upper, prec, []);
    if zeros {
      assert sign + Repeat(ZERO, pad) + body + [] == sign + Repeat(ZERO, pad) + body;
    } else {
      assert sign + Repeat(ZERO, 0) + body + [] == sign + body;
      Indented(pad, sign + body, base);
      Assoc(Repeat(SPACE, pad), sign, body);
    }
  }

  /** A zero printed with precision 0 is blank, and a blank field reads as zero. */
  lemma {:induction false} BlankField(v: nat, base: nat, upper: bool, prec: Option<nat>, n: nat)
    requires 2 <= base <= 16 && DigitField(v, base, upper, prec) == []
    ensures v == 0 && Strtol(Repeat(SPACE, n), base).0 == 0
  {
    assert Repeat(SPACE, n) + [] == Repeat(SPACE, n);
    Indented(n, [], base);
  }

  // ----- the language of the parser -----

  predicate AllDigits(ds: seq<byte>, base: nat) {
    forall i :: 0 <= i < |ds| ==> IsDigit(ds[i], base)
  }

  /** The number that digits stand for, the last one being worth its own value. */
  function Positional(ds: seq<byte>, base: nat): nat
    requires AllDigits(ds, base)
  {
    if ds == [] then 0
    else Positional(ds[..|ds| - 1], base) * base + DigitValue(ds[|ds| - 1]).value
  }

  /** A text taken apart: blanks, a sign, a prefix that tells the base, digits, and the rest. */
  datatype Numeral = Numeral(blanks: seq<byte>, sign: seq<byte>, prefix: seq<byte>, digits: seq<byte>, rest: seq<byte>)

  function Render(n: Numeral): seq<byte> {
    n.blanks + (n.sign + (n.prefix + (n.digits + n.rest)))
  }

  /** The base in which the digits are read: the given one, or for 0 the one of the prefix. */
  function BaseOf(n: Numeral, base: nat): nat {
    if base != 0 then base else if n.prefix == [] then 10 else if n.prefix == [ZERO] then 8 else 16
  }

  predicate StartsWith(s: seq<byte>, cs: set<byte>) {
    s != [] && s[0] in cs
  }

  /** Each part is of its kind and goes as far as it can. */
  predicate IsNumeral(n: Numeral, base: nat) {
    (forall i :: 0 <= i < |n.blanks| ==> n.blanks[i] in {SPACE, TAB})
    && n.sign in {[], [MINUS], [PLUS]}
    && (n.sign == [] ==> !StartsWith(n.prefix + (n.digits + n.rest), {SPACE, TAB, MINUS, PLUS}))
    && (base != 0 ==> n.prefix == [])
    && n.prefix in {[], [ZERO], [ZERO, 120], [ZERO, 88]}
    && (base == 0 && n.prefix == [] ==> !StartsWith(n.digits + n.rest, {ZERO}))
    && (n.prefix == [ZERO] ==> !StartsWith(n.digits + n.rest, {120, 88}))
    && AllDigits(n.digits, BaseOf(n, base))
    && (n.rest != [] ==> !IsDigit(n.rest[0], BaseOf(n, base)))
  }

  lemma {:induction false} ParsePrefix(ds: seq<byte>, t: seq<byte>, base: nat)
    requires AllDigits(ds, base)
    ensures ParseDigits(ds + t, base, 0) == ParseDigits(t, base, Positional(ds, base))
    decreases ds
  {
    if ds == [] {
      assert ds + t == t;
    } else {
      var init, c := ds[..|ds| - 1], ds[|ds| - 1];
      assert ds + t == init + ([c] + t);
      ParsePrefix(init, [c] + t, base);
      ParseOne(c, t, base, Positional(init, base));
    }
  }

  lemma {:induction false} SkipAll(bs: seq<byte>, t: seq<byte>)
    requires (forall i :: 0 <= i < |bs| ==> bs[i] in {SPACE, TAB}) && !StartsWith(t, {SPACE, TAB})
    ensures SkipBlanks(bs + t) == t
  {
    if bs == [] {
      assert bs + t == t;
    } else {
      assert (bs + t)[1..] == bs[1..] + t;
      SkipAll(bs[1..], t);
    }
  }

  lemma {:induction false} PrefixRead(n: Numeral, base: nat)
    requires IsNumeral(n, base)
    ensures DetectBase(n.prefix + (n.digits + n.rest), base) == (BaseOf(n, base), n.digits + n.rest)
  {
    hide AllDigits, IsDigit;
    var t := n.digits + n.rest;
    var s := n.prefix + t;
    if n.prefix == [] {
      assert s == t;
    } else if n.prefix == [ZERO] {
      assert s[1..] == t && (t != [] ==> s[1] == t[0]);
    } else {
      assert s[2..] == t && s[1] == n.prefix[1];
    }
  }

  lemma {:induction false} SignRead(sign: seq<byte>, t: seq<byte>)
    requires sign in {[], [MINUS], [PLUS]} && (sign == [] ==> !StartsWith(t, {SPACE, TAB, MINUS, PLUS}))
    ensures DropSign(sign + t) == t && (Negative(sign + t) <==> sign == [MINUS]) && !StartsWith(sign + t, {SPACE, TAB})
  {
    if sign == [] { assert sign + t == t; } else { assert (sign + t)[1..] == t; }
  }

  /** What the parser makes of a text, said of its parts: the number its digits stand for in the base
      that is given or detected, with its sign, and the rest. */
  lemma {:induction false} StrtolReads(n: Numeral, base: nat)
    requires IsNumeral(n, base)
    ensures var v := Positional(n.digits, BaseOf(n, base));
            Strtol(Render(n), base) == (if n.sign == [MINUS] then -(v as int) else v, n.rest)
  {
    hide ParseDigits, SkipBlanks, DetectBase, AllDigits, Positional, IsDigit;
    var t := n.prefix + (n.digits + n.rest);
    SignRead(n.sign, t);
    SkipAll(n.blanks, n.sign + t);
    PrefixRead(n, base);
    ParsePrefix(n.digits, n.rest, BaseOf(n, base));
    ParseStops(n.rest, BaseOf(n, base), Positional(n.digits, BaseOf(n, base)));
  }

  lemma {:induction false} ParseStops(t: seq<byte>, base: nat, acc: nat)
    requires t != [] ==> !IsDigit(t[0], base)
    ensures ParseDigits(t, base, acc) == (acc, t)
  {
  }

  lemma {:induction false} SplitBlanks(s: seq<byte>) returns (blanks: seq<byte>, t: seq<byte>)
    ensures s == blanks + t && (forall i :: 0 <= i < |blanks| ==> blanks[i] in {SPACE, TAB}) && !StartsWith(t, {SPACE, TAB})
    decreases s
  {
    if StartsWith(s, {SPACE, TAB}) {
      blanks, t := SplitBlanks(s[1..]);
      assert s == [s[0]] + (blanks + t);
      blanks := [s[0]] + blanks;
    } else {
      blanks, t := [], s;
    }
  }

  lemma {:induction false} SplitSign(s: seq<byte>) returns (sign: seq<byte>, t: seq<byte>)
    requires !StartsWith(s, {SPACE, TAB})
    ensures s == sign + t && sign in {[], [MINUS], [PLUS]} && (sign == [] ==> !StartsWith(t, {SPACE, TAB, MINUS, PLUS}))
  {
    if StartsWith(s, {MINUS, PLUS}) {
      sign, t := [s[0]], s[1..];
    } else {
      sign, t := [], s;
    }
  }

  lemma {:induction false} SplitPrefix(s: seq<byte>, base: nat) returns (prefix: seq<byte>, t: seq<byte>)
    ensures s == prefix + t && (base != 0 ==> prefix == []) && prefix in {[], [ZERO], [ZERO, 120], [ZERO, 88]}
    ensures (base == 0 && prefix == [] ==> !StartsWith(t, {ZERO})) && (prefix == [ZERO] ==> !StartsWith(t, {120, 88}))
  {
    if base != 0 || !StartsWith(s, {ZERO}) {
      prefix, t := [], s;
    } else if StartsWith(s[1..], {120, 88}) {
      prefix, t := [ZERO, s[1]], s[2..];
    } else {
      prefix, t := [ZERO], s[1..];
    }
  }

  lemma {:induction false} SplitDigits(s: seq<byte>, base: nat) returns (digits: seq<byte>, t: seq<byte>)
    ensures s == digits + t && AllDigits(digits, base) && (t != [] ==> !IsDigit(t[0], base))
    decreases s
  {
    if s != [] && IsDigit(s[0], base) {
      digits, t := SplitDigits(s[1..], base);
      assert s == [s[0]] + (digits + t);
      digits := [s[0]] + digits;
    } else {
      digits, t := [], s;
    }
  }

  /** And every text is such a numeral. */
  lemma {:induction false} EveryTextIsNumeral(s: seq<byte>, base: nat) returns (n: Numeral)
    ensures IsNumeral(n, base) && Render(n) == s
  {
    hide AllDigits, IsDigit, StartsWith;
    var blanks, s1 := SplitBlanks(s);
    var sign, s2 := SplitSign(s1);
    var prefix, s3 := SplitPrefix(s2, base);
    var digits, rest := SplitDigits(s3, BaseOf(Numeral([], [], prefix, [], []), base));
    n := Numeral(blanks, sign, prefix, digits, rest);
  }
}
