/**
 What the conversions print, said without the formatter: the text of a number is spaces, a sign,
 digits that stand for its value, and spaces, each as many as width, precision and flags ask for, and
 such a text is read back by the number parser; strings and characters stand in their field.
 */
module Conversions {

  import opened Arithmetic
  import opened Bytes
  import opened Printf
  import opened Vsnprintf
  import Strtol
  import FormatSyntax

  // ----- number fields -----

  /** No letter of the other case. */
  predicate InCase(c: byte, upper: bool) {
    if upper then !(97 <= c <= 122) else !(65 <= c <= 90)
  }

  /** `ds` are digits of the base, in the right case, that stand for `v`. */
  ghost predicate StandsFor(ds: seq<byte>, v: nat, base: nat, upper: bool) {
    (forall c :: c in ds ==> Strtol.IsDigit(c, base) && InCase(c, upper)) && Strtol.ParseDigits(ds, base, 0) == (v, [])
  }

  /** As many digits as a precision asks for, or else one; more only if the number needs them, or if
      they fill the width. */
  predicate DigitsAsked(ds: seq<byte>, prec: Option<nat>, filled: bool) {
    match prec
    case Some(p) => |ds| >= p && (|ds| > p ==> ds[0] != ZERO)
    case None => |ds| >= 1 && (|ds| > 1 && ds[0] == ZERO ==> filled)
  }

  function Sign(negative: bool): seq<byte> {
    if negative then [MINUS] else []
  }

  /** A field of `n` bytes, with spaces on the one side that make up the width. */
  predicate Field(lead: nat, n: nat, trail: nat, width: nat, left: bool) {
    lead + n + trail == Max(width, n) && (if left then lead == 0 else trail == 0)
  }

  /** `text` is the number `v`, with a sign if `negative`, laid out as the directive asks. */
  ghost predicate NumberText(text: seq<byte>, v: nat, base: nat, upper: bool, negative: bool, width: nat,
                             prec: Option<nat>, zeroPad: bool, left: bool, lead: nat, ds: seq<byte>, trail: nat)
  {
    var n := |Sign(negative)| + |ds|;
    var filling := zeroPad && prec == None && !left;
    text == Repeat(SPACE, lead) + Sign(negative) + ds + Repeat(SPACE, trail)
    && StandsFor(ds, v, base, upper)
    && Field(lead, n, trail, width, left)
    && DigitsAsked(ds, prec, filling && n == width)
    && (filling ==> lead == 0)
  }

  lemma {:induction false} DigitsInCase(v: nat, base: nat, upper: bool)
    requires 2 <= base <= 16
    ensures forall c :: c in Digits(v, base, upper) ==> InCase(c, upper)
  {
    if v > 0 {
      DivMod(v, base);
      DigitsInCase(Quot(v, base), base, upper);
    }
  }

  /** The most significant digit is not zero. */
  lemma {:induction false} LastDigit(v: nat, base: nat, upper: bool)
    requires 2 <= base <= 16 && v > 0
    ensures var ds := Digits(v, base, upper); |ds| > 0 && ds[|ds| - 1] != ZERO
  {
    hide Quot, Rem;
    DivMod(v, base);
    var d, q := Rem(v, base), Quot(v, base);
    if q > 0 {
      LastDigit(q, base, upper);
    } else {
      assert Digits(q, base, upper) == [];
      assert v == d by { assert q * base == 0; }
    }
  }

  lemma {:induction false} FirstOfReverse(s: seq<byte>)
    requires s != []
    ensures Reverse(s)[0] == s[|s| - 1]
  {
    ReverseLast(s);
  }

  /** The digit field with zeros in front of it. */
  function Body(zeros: nat, v: nat, base: nat, upper: bool, prec: Option<nat>): seq<byte>
    requires 2 <= base <= 36
  {
    Repeat(ZERO, zeros) + Reverse(DigitField(v, base, upper, prec))
  }

  lemma {:induction false} BodyStandsFor(zeros: nat, v: nat, base: nat, upper: bool, prec: Option<nat>)
    requires 2 <= base <= 16
    ensures StandsFor(Body(zeros, v, base, upper, prec), v, base, upper)
  {
    hide Strtol.ParseDigits, Digits;
    var f := DigitField(v, base, upper, prec);
    var b := Body(zeros, v, base, upper, prec);
    Strtol.ParseField(zeros, v, base, upper, prec, []);
    assert b + [] == b;
    Strtol.FieldIsDigits(v, base, upper, prec);
    DigitsInCase(v, base, upper);
    Strtol.ReverseMembers(f);
    forall c | c in b ensures Strtol.IsDigit(c, base) && InCase(c, upper) {
      if c in Reverse(f) { assert c in f; } else { assert c == ZERO; }
    }
  }

  lemma {:induction false} BodyDigits(v: nat, base: nat, upper: bool, prec: Option<nat>)
    requires 2 <= base <= 16
    ensures |Body(0, v, base, upper, prec)| == |DigitField(v, base, upper, prec)|
    ensures DigitsAsked(Body(0, v, base, upper, prec), prec, false)
  {
    hide Digits, Reverse;
    var f := DigitField(v, base, upper, prec);
    var b := Body(0, v, base, upper, prec);
    assert b == Reverse(f);
    if v > 0 { LastDigit(v, base, upper); }
    DigitsOfZero(base, upper);
    if f != [] { FirstOfReverse(f); }
  }

  lemma {:induction false} DigitsOfZero(base: nat, upper: bool)
    requires 2 <= base <= 36
    ensures Digits(0, base, upper) == []
  {
  }

  /** The parts of a field, rearranged. */
  lemma {:induction false} LayOut(negative: bool, body: seq<byte>, pad: nat, zeros: bool, left: bool)
    ensures Prefix(negative, pad, zeros, left) + body + Repeat(SPACE, if left then pad else 0)
         == Repeat(SPACE, if left || zeros then 0 else pad) + Sign(negative)
            + (Repeat(ZERO, if zeros && !left then pad else 0) + body) + Repeat(SPACE, if left then pad else 0)
  {
    var sign := Sign(negative);
    assert Repeat(ZERO, 0) + body == body;
    if left {
      assert Repeat(SPACE, 0) + sign == sign;
    } else if zeros {
      assert Repeat(SPACE, 0) + sign == sign;
      Assoc(sign, Repeat(ZERO, pad), body);
    }
  }

  /** Zeros in front of the digits fill the width. */
  lemma {:induction false} BodyFills(zeros: nat, v: nat, base: nat, upper: bool, prec: Option<nat>)
    requires 2 <= base <= 16 && (zeros > 0 ==> prec == None)
    ensures |Body(zeros, v, base, upper, prec)| == zeros + |DigitField(v, base, upper, prec)|
    ensures DigitsAsked(Body(zeros, v, base, upper, prec), prec, zeros > 0)
  {
    hide DigitField, Reverse;
    BodyDigits(v, base, upper, prec);
  }

  lemma {:induction false} FieldText(v: nat, base: nat, upper: bool, negative: bool, width: nat, prec: Option<nat>,
                                     zeroPad: bool, left: bool, pad: nat)
    requires 2 <= base <= 16 && pad == Pad(width, |DigitField(v, base, upper, prec)| + |Sign(negative)|)
    ensures var zeros := zeroPad && prec == None;
            FmtUint(v, base, upper, negative, width, prec, zeroPad, left)
            == Repeat(SPACE, if left || zeros then 0 else pad) + Sign(negative)
               + Body(if zeros && !left then pad else 0, v, base, upper, prec) + Repeat(SPACE, if left then pad else 0)
  {
    hide DigitField, Reverse, Prefix, Repeat;
    LayOut(negative, Reverse(DigitField(v, base, upper, prec)), pad, zeroPad && prec == None, left);
  }

  /** Every number field is laid out as asked. */
  lemma {:induction false} NumberField(v: nat, base: nat, upper: bool, negative: bool, width: nat, prec: Option<nat>,
                                       zeroPad: bool, left: bool) returns (lead: nat, ds: seq<byte>, trail: nat)
    requires 2 <= base <= 16
    ensures NumberText(FmtUint(v, base, upper, negative, width, prec, zeroPad, left), v, base, upper, negative, width,
                       prec, zeroPad, left, lead, ds, trail)
  {
    hide DigitField, StandsFor, DigitsAsked, FmtUint, Body, Repeat;
    var n := |DigitField(v, base, upper, prec)| + |Sign(negative)|;
    var pad, zeros := Pad(width, n), zeroPad && prec == None;
    var fill := if zeros && !left then pad else 0;
    lead := if left || zeros then 0 else pad;
    trail := if left then pad else 0;
    ds := Body(fill, v, base, upper, prec);
    BodyStandsFor(fill, v, base, upper, prec);
    BodyFills(fill, v, base, upper, prec);
    FieldText(v, base, upper, negative, width, prec, zeroPad, left, pad);
    AskedMore(ds, prec, fill > 0, zeros && !left && |Sign(negative)| + |ds| == width);
  }

  lemma {:induction false} AskedMore(ds: seq<byte>, prec: Option<nat>, filled: bool, filled': bool)
    requires DigitsAsked(ds, prec, filled) && (filled ==> filled')
    ensures DigitsAsked(ds, prec, filled')
  {
  }

  // ----- integers -----

  /** `n` is the integer of so many bits (`limit` is their power of two) that the slot holds. */
  predicate IsArgument(n: int, bits: nat, limit: nat, signed: bool)
    requires limit > 0
  {
    n <= bits && (bits - n) % limit == 0 && if signed then 0 <= 2 * n + limit < 2 * limit else 0 <= n < limit
  }

  function Limit(long: bool): nat {
    if long then 0x1_0000_0000_0000_0000 else 0x1_0000_0000
  }

  /** The integer conversions and their bases. */
  const BASES: map<byte, nat> := map[100 := 10, 105 := 10, 117 := 10, 111 := 8, 120 := 16, 88 := 16]   // d i u o x X

  function Magnitude(n: int): nat {
    if n < 0 then -n else n
  }

  lemma {:induction false} SignedIs(s: Slot, long: bool)
    ensures IsArgument(if long then AsCLong(s) else AsCInt(s), s.bits, Limit(long), true)
  {
    if long { LongIs(s); } else { IntIs(s); }
  }

  lemma {:induction false} IntIs(s: Slot)
    ensures IsArgument(AsCInt(s), s.bits, 0x1_0000_0000, true)
  {
  }

  lemma {:induction false} LongIs(s: Slot)
    ensures IsArgument(AsCLong(s), s.bits, 0x1_0000_0000_0000_0000, true)
  {
  }

  lemma {:induction false} UnsignedIs(s: Slot, long: bool)
    ensures IsArgument(AsUnsigned(s, long), s.bits, Limit(long), false)
  {
    if long {
      assert AsUnsigned(s, long) == s.bits % 0x1_0000_0000_0000_0000;
    } else {
      assert AsUnsigned(s, long) == s.bits % 0x1_0000_0000;
    }
  }

  /** What an integer conversion prints: the argument, read with the width and the signedness of the
      conversion, in its base and case, laid out as the directive asks. */
  lemma {:induction false} IntegerText(d: Directive, s: Slot) returns (n: int, lead: nat, ds: seq<byte>, trail: nat)
    requires d.conv in BASES && Convert(d, s).Some?
    ensures IsArgument(n, s.bits, Limit(d.long), d.conv in {100, 105})
    ensures NumberText(Convert(d, s).value, Magnitude(n), BASES[d.conv], d.conv == 88, n < 0, d.width, d.prec, d.zero, d.left,
                       lead, ds, trail)
  {
    hide FmtUint, NumberText, IsArgument;
    if d.conv in {100, 105} {
      n := if d.long then AsCLong(s) else AsCInt(s);
      SignedIs(s, d.long);
    } else {
      n := AsUnsigned(s, d.long);
      UnsignedIs(s, d.long);
    }
    lead, ds, trail := NumberField(Magnitude(n), BASES[d.conv], d.conv == 88, n < 0, d.width, d.prec, d.zero, d.left);
  }

  /** So the number parser reads the argument back. */
  lemma {:induction false} IntegerReadsBack(d: Directive, s: Slot) returns (n: int)
    requires d.conv in BASES && Convert(d, s).Some?
    ensures IsArgument(n, s.bits, Limit(d.long), d.conv in {100, 105})
    ensures Strtol.Strtol(Convert(d, s).value, BASES[d.conv]).0 == n
  {
    hide FmtUint, IsArgument, Strtol.Strtol;
    if d.conv in {100, 105} {
      n := if d.long then AsCLong(s) else AsCInt(s);
      SignedIs(s, d.long);
    } else {
      n := AsUnsigned(s, d.long);
      UnsignedIs(s, d.long);
    }
    Strtol.StrtolUndoesFmtUint(Magnitude(n), BASES[d.conv], d.conv == 88, n < 0, d.width, d.prec, d.zero, d.left);
  }

  /** A pointer is printed as 0x and its digits, whatever the width and the flags. */
  lemma {:induction false} PointerText(d: Directive, s: Slot) returns (n: nat, ds: seq<byte>)
    requires d.conv == 112
    ensures IsArgument(n, s.bits, Limit(true), false)
    ensures Convert(d, s) == Some([48, 120] + ds) && StandsFor(ds, n, 16, false) && DigitsAsked(ds, None, false)
  {
    hide FmtUint, StandsFor;
    n := AsUnsigned(s, true);
    UnsignedIs(s, true);
    var lead, trail;
    lead, ds, trail := NumberField(n, 16, false, false, 0, Some(1), false, false);
    var text := FmtUint(n, 16, false, false, 0, Some(1), false, false);
    assert Repeat(SPACE, 0) + Sign(false) + ds + Repeat(SPACE, 0) == ds;
    assert text == ds;
  }

  // ----- strings and characters -----

  /** `text` is `content` with spaces that make up the width, in front unless left-adjusted. */
  predicate InField(text: seq<byte>, content: seq<byte>, width: nat, left: bool) {
    |text| == Max(width, |content|)
    && var at := if left then 0 else |text| - |content|;
       text[at..at + |content|] == content
       && forall i :: 0 <= i < |text| && !(at <= i < at + |content|) ==> text[i] == SPACE
  }

  lemma {:induction false} StringField(s: seq<byte>, width: nat, left: bool)
    ensures InField(FmtStr(s, width, left), s, width, left)
  {
    var text := FmtStr(s, width, left);
    assert left ==> text[..|s|] == s;
    assert !left ==> text[|text| - |s|..] == s;
  }

  const NULL_STRING := [40, 110, 117, 108, 108, 41]   // "(null)"

  /** The string, or "(null)", cut at the precision. */
  lemma {:induction false} StringText(d: Directive, s: Slot) returns (n: nat)
    requires d.conv == 115
    ensures var full := if s.text.Some? then s.text.value else NULL_STRING;
            n == (if d.prec.Some? then Min(d.prec.value, |full|) else |full|)
            && Convert(d, s).Some? && InField(Convert(d, s).value, full[..n], d.width, d.left)
  {
    hide InField, FmtStr;
    var full := if s.text.Some? then s.text.value else NULL_STRING;
    n := if d.prec.Some? then Min(d.prec.value, |full|) else |full|;
    assert full[..|full|] == full;
    StringField(full[..n], d.width, d.left);
  }

  /** A character is the low byte of an int that is not negative. */
  lemma {:induction false} CharacterText(d: Directive, s: Slot) returns (c: byte, n: int)
    requires d.conv == 99
    ensures IsArgument(n, s.bits, Limit(false), true) && (n - c) % 256 == 0
    ensures n < 0 ==> Convert(d, s) == None
    ensures n >= 0 ==> Convert(d, s).Some? && InField(Convert(d, s).value, [c], d.width, d.left)
  {
    hide InField, FmtStr, IsArgument;
    n := AsCInt(s);
    SignedIs(s, false);
    c := n % 256;
    StringField([c], d.width, d.left);
  }

  /** A percent sign prints itself and any other byte nothing. */
  lemma {:induction false} OtherText(d: Directive, s: Slot)
    requires d.conv !in BASES && d.conv !in {112, 115, 99}
    ensures Convert(d, s) == Some(if d.conv == 37 then [37] else [])
  {
  }

  /** A conversion takes an argument exactly if what it prints can depend on one. */
  lemma {:induction false} TakesIff(conv: byte)
    ensures TakesArgument(conv) <==> exists d: Directive, s, s' :: d.conv == conv && Convert(d, s) != Convert(d, s')
  {
    if TakesArgument(conv) {
      var d := Directive(false, false, 0, None, false, conv);
      ZeroOrOne(d);
    } else {
      forall d: Directive, s, s' | d.conv == conv ensures Convert(d, s) == Convert(d, s') {
        OtherText(d, s);
        OtherText(d, s');
      }
    }
  }

  lemma {:induction false} ZeroOrOne(d: Directive)
    requires TakesArgument(d.conv) && d.prec == None && d.width == 0
    ensures Convert(d, Slot(0, None)) != Convert(d, Slot(1, Some([])))
  {
    hide Convert;
    if d.conv in BASES { IntegersDiffer(d); } else if d.conv == 112 { PointersDiffer(d); } else { FieldsDiffer(d); }
  }

  lemma {:induction false} IntegersDiffer(d: Directive)
    requires d.conv in BASES && d.prec == None
    ensures Convert(d, Slot(0, None)) != Convert(d, Slot(1, Some([])))
  {
    hide Convert, Strtol.Strtol;
    var s, s' := Slot(0, None), Slot(1, Some([]));
    NumbersPrinted(d, s);
    NumbersPrinted(d, s');
    var n := IntegerReadsBack(d, s);
    var n' := IntegerReadsBack(d, s');
    assert n == 0 && n' == 1;
  }

  lemma {:induction false} PointersDiffer(d: Directive)
    requires d.conv == 112
    ensures Convert(d, Slot(0, None)) != Convert(d, Slot(1, Some([])))
  {
    hide Convert, DigitsAsked, Strtol.ParseDigits;
    var n, ds := PointerText(d, Slot(0, None));
    var n', ds' := PointerText(d, Slot(1, Some([])));
    assert n == 0 && n' == 1;
    assert ([48, 120] + ds)[2..] == ds && ([48, 120] + ds')[2..] == ds';
  }

  lemma {:induction false} FieldsDiffer(d: Directive)
    requires d.conv in {115, 99} && d.prec == None && d.width == 0
    ensures Convert(d, Slot(0, None)) != Convert(d, Slot(1, Some([])))
  {
    hide Convert, InField, IsArgument;
    var s, s' := Slot(0, None), Slot(1, Some([]));
    if d.conv == 115 {
      var n := StringText(d, s);
      var n' := StringText(d, s');
      NoPadding(Convert(d, s).value, NULL_STRING[..n], d.left);
      NoPadding(Convert(d, s').value, [], d.left);
    } else {
      var c, n := CharacterText(d, s);
      var c', n' := CharacterText(d, s');
      SmallArgument(n, 0);
      SmallArgument(n', 1);
      NoPadding(Convert(d, s).value, [c], d.left);
      NoPadding(Convert(d, s').value, [c'], d.left);
    }
  }

  lemma {:induction false} SmallArgument(n: int, bits: nat)
    requires bits <= 1 && IsArgument(n, bits, Limit(false), true)
    ensures n == bits
  {
  }

  /** Without a width the field is its content. */
  lemma {:induction false} NoPadding(text: seq<byte>, content: seq<byte>, left: bool)
    requires InField(text, content, 0, left)
    ensures text == content
  {
    assert |text| == |content|;
    assert text[0..|content|] == text;
  }

  lemma {:induction false} NumbersPrinted(d: Directive, s: Slot)
    requires d.conv in BASES && d.prec == None && s.bits <= 1
    ensures Convert(d, s).Some?
  {
    hide FmtUint;
  }

  // ----- whole formats -----

  /** A format that is one integer directive, written in any way, prints a text from which the parser
      reads the argument back. */
  lemma {:induction false} PrintedReadsBack(spec: FormatSyntax.Spec, args: VaList) returns (n: int)
    requires FormatSyntax.IsSpec(spec) && spec.conv in BASES && FormatSyntax.Fits(FormatSyntax.Conversion(spec), args, 0)
    ensures IsArgument(n, args(FormatSyntax.Stars(spec)).bits, Limit(FormatSyntax.IsLong(spec)), spec.conv in {100, 105})
    ensures var r := FormatFrom([PERCENT] + FormatSyntax.Render(spec) + [spec.conv], 0, args, 0);
            r.Some? && Strtol.Strtol(r.value, BASES[spec.conv]).0 == n
  {
    hide IsArgument, Strtol.Strtol, FormatFrom, Convert, FormatSyntax.IsSpec, FormatSyntax.Render, FormatSyntax.Meant,
      FormatSyntax.Stars, FormatSyntax.IsLong, FormatSyntax.Fits;
    var p := FormatSyntax.Conversion(spec);
    var d, s := FormatSyntax.Meant(spec, args, 0), args(FormatSyntax.Stars(spec));
    var fmt := [PERCENT] + FormatSyntax.Render(spec) + [spec.conv];
    FormatSyntax.MeantParts(spec, args, 0);
    OneDirective(spec, args);
    n := IntegerReadsBack(d, s);
  }

  lemma {:induction false} OneDirective(spec: FormatSyntax.Spec, args: VaList)
    requires FormatSyntax.IsSpec(spec) && FormatSyntax.Fits(FormatSyntax.Conversion(spec), args, 0)
    ensures var text := Convert(FormatSyntax.Meant(spec, args, 0), args(FormatSyntax.Stars(spec)));
            text.Some? && FormatFrom([PERCENT] + FormatSyntax.Render(spec) + [spec.conv], 0, args, 0) == text
  {
    hide FormatFrom, Convert, FormatSyntax.IsSpec, FormatSyntax.Render, FormatSyntax.Meant,
      FormatSyntax.Stars, FormatSyntax.IsLong;
    var p := FormatSyntax.Conversion(spec);
    var ps := [p];
    assert ps[1..] == [];
    FormatSyntax.FormatRendered([], ps, None, args, 0);
    var fmt := FormatSyntax.RenderPiece(p);
    assert FormatSyntax.RenderAll(ps) == fmt + [] && fmt + [] == fmt;
    assert [] + (fmt + []) == fmt;
    FormatSyntax.MeantParts(spec, args, 0);
    FormatSyntax.ConvertIff(FormatSyntax.Meant(spec, args, 0), args(FormatSyntax.Stars(spec)));
    var text := FormatSyntax.TextOf(p, args, 0);
    assert text + [] == text;
  }
}
