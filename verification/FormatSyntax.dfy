/**
 The format language as the formatter reads it: every format is a list of plain bytes and directives,
 perhaps with a directive cut off at its end, and this says exactly which formats have a text and
 what it is.
 */
module FormatSyntax {

  import opened Bytes
  import opened Printf
  import opened Vsnprintf

  predicate IsFlag(c: byte) {
    c in {45, ZERO, 43, 32, 35}   // - 0 + space #
  }

  predicate IsLengthLetter(c: byte) {
    c in {108, 104, 122, 106, 116}   // l h z j t
  }

  const LENGTHS: set<seq<byte>> := {[], [108], [108, 108], [104], [104, 104], [122], [106], [116]}

  // ----- directives as written -----

  datatype Precise = Precise(digits: seq<byte>, star: bool)

  /** The parts of a directive between its percent sign and its end. */
  datatype Spec = Spec(flags: seq<byte>, width: seq<byte>, star: bool, prec: Option<Precise>, length: seq<byte>, conv: byte)

  function StarText(star: bool): seq<byte> {
    if star then [STAR] else []
  }

  function PrecText(prec: Option<Precise>): seq<byte> {
    if prec.Some? then [DOT] + prec.value.digits + StarText(prec.value.star) else []
  }

  /** Everything but the conversion. */
  function Render(s: Spec): seq<byte> {
    s.flags + s.width + StarText(s.star) + PrecText(s.prec) + s.length
  }

  /** What follows the precision digits, the precision, the star, the width digits, the flags. */
  function AfterPrec(s: Spec): byte {
    if s.length != [] then s.length[0] else s.conv
  }

  function AfterStar(s: Spec): byte {
    if s.prec.Some? then DOT else AfterPrec(s)
  }

  function AfterWidth(s: Spec): byte {
    if s.star then STAR else AfterStar(s)
  }

  function AfterFlags(s: Spec): byte {
    if s.width != [] then s.width[0] else AfterWidth(s)
  }

  predicate AllDecimal(ds: seq<byte>) {
    forall i :: 0 <= i < |ds| ==> IsDecimal(ds[i])
  }

  predicate AllFlags(fs: seq<byte>) {
    forall i :: 0 <= i < |fs| ==> IsFlag(fs[i])
  }

  /** Each part is of its kind and ends where it does. */
  predicate IsSpec(s: Spec) {
    AllFlags(s.flags) && !IsFlag(AfterFlags(s))
    && AllDecimal(s.width) && !IsDecimal(AfterWidth(s))
    && (!s.star ==> AfterStar(s) != STAR)
    && (match s.prec
        case None => AfterPrec(s) != DOT
        case Some(p) =>
          AllDecimal(p.digits) && (!p.star ==> !IsDecimal(AfterPrec(s)) && AfterPrec(s) != STAR))
    && s.length in LENGTHS
    && (s.length == [] ==> !IsLengthLetter(s.conv))
    && (s.length == [108] ==> s.conv != 108) && (s.length == [104] ==> s.conv != 104)
  }

  // ----- what a directive means -----

  /** The value of decimal digits. */
  function Value(ds: seq<byte>, acc: nat): nat
    requires AllDecimal(ds)
    decreases ds
  {
    if ds == [] then acc else Value(ds[1..], acc * 10 + (ds[0] - ZERO))
  }

  function Bit(b: bool): nat {
    if b then 1 else 0
  }

  /** How many arguments the stars take. */
  function Stars(s: Spec): nat {
    Bit(s.star) + Bit(s.prec.Some? && s.prec.value.star)
  }

  function WidthOf(s: Spec, args: VaList, k: nat): nat
    requires IsSpec(s)
  {
    if s.star then (if AsCInt(args(k)) < 0 then -AsCInt(args(k)) else AsCInt(args(k))) else Value(s.width, 0)
  }

  function PrecOf(s: Spec, args: VaList, k: nat): Option<nat>
    requires IsSpec(s)
  {
    match s.prec
    case None => None
    case Some(p) =>
      var v := AsCInt(args(k + Bit(s.star)));
      if !p.star then Some(Value(p.digits, 0)) else if v >= 0 then Some(v) else None
  }

  function IsLong(s: Spec): bool {
    s.length in {[108], [108, 108], [122], [106], [116]}
  }

  /** The directive that a written one stands for with its arguments from slot `k` on. */
  function Meant(s: Spec, args: VaList, k: nat): Directive
    requires IsSpec(s)
  {
    Directive(45 in s.flags || (s.star && AsCInt(args(k)) < 0), ZERO in s.flags, WidthOf(s, args, k), PrecOf(s, args, k),
              IsLong(s), s.conv)
  }

  /** Its numbers fit 64 bits and a width from an argument can be negated. */
  predicate NumbersFit(s: Spec, args: VaList, k: nat)
    requires IsSpec(s)
  {
    Value(s.width, 0) < U64 && (s.star ==> AsCInt(args(k)) != -0x8000_0000)
    && (s.prec.Some? ==> Value(s.prec.value.digits, 0) < U64)
  }

  // ----- reading back what was written -----

  function First(s: seq<byte>): byte {
    if s == [] then 0 else s[0]
  }

  lemma {:induction false} AtSplit(a: seq<byte>, rest: seq<byte>)
    ensures At(a + rest, |a|) == First(rest)
  {
  }

  lemma {:induction false} FlagsRead(pre: seq<byte>, fs: seq<byte>, rest: seq<byte>, left: bool, zero: bool)
    requires AllFlags(fs) && !IsFlag(First(rest))
    ensures ParseFlags(pre + fs + rest, Flags(left, zero, |pre|))
         == Flags(left || 45 in fs, zero || ZERO in fs, |pre| + |fs|)
    decreases fs
  {
    var fmt := pre + fs + rest;
    if fs == [] {
      AtSplit(pre, rest);
      assert fmt == pre + rest;
    } else {
      var c, fs' := fs[0], fs[1..];
      assert pre + [c] + fs' + rest == fmt;
      assert fmt[|pre|] == c;
      FlagsRead(pre + [c], fs', rest, left || c == 45, zero || c == ZERO);
      assert fs == [c] + fs';
    }
  }

  lemma {:induction false} NumberRead(pre: seq<byte>, ds: seq<byte>, rest: seq<byte>, acc: nat)
    requires AllDecimal(ds) && !IsDecimal(First(rest))
    ensures ParseNumber(pre + ds + rest, |pre|, acc) == (Value(ds, acc), |pre| + |ds|)
    decreases ds
  {
    var fmt := pre + ds + rest;
    if ds == [] {
      AtSplit(pre, rest);
      assert fmt == pre + rest;
    } else {
      var c, ds' := ds[0], ds[1..];
      assert pre + [c] + ds' + rest == fmt;
      assert fmt[|pre|] == c;
      NumberRead(pre + [c], ds', rest, acc * 10 + (c - ZERO));
    }
  }

  lemma {:induction false} WidthRead(pre: seq<byte>, s: Spec, rest: seq<byte>, left: bool, zero: bool, args: VaList, k: nat)
    requires IsSpec(s) && First(rest) == AfterStar(s)
    ensures ParseWidth(pre + s.width + (StarText(s.star) + rest), Flags(left, zero, |pre|), args, k)
         == if Value(s.width, 0) < U64 && (s.star ==> AsCInt(args(k)) != -0x8000_0000)
            then Some(Width(left || (s.star && AsCInt(args(k)) < 0), WidthOf(s, args, k), |pre| + |s.width| + Bit(s.star), k + Bit(s.star)))
            else None
  {
    hide ParseNumber, Value, AsCInt;
    var r := StarText(s.star) + rest;
    NumberRead(pre, s.width, r, 0);
    AtSplit(pre + s.width, r);
  }

  lemma {:induction false} PrecisionRead(pre: seq<byte>, s: Spec, rest: seq<byte>, args: VaList, k: nat)
    requires IsSpec(s) && First(rest) == AfterPrec(s)
    ensures ParsePrecision(pre + PrecText(s.prec) + rest, |pre|, args, k + Bit(s.star))
         == if s.prec.Some? && Value(s.prec.value.digits, 0) >= U64 then None
            else Some(Precision(PrecOf(s, args, k), |pre| + |PrecText(s.prec)|, k + Stars(s)))
  {
    match s.prec
    case None =>
      assert pre + PrecText(s.prec) + rest == pre + rest;
      AtSplit(pre, rest);
    case Some(p) =>
      hide ParseNumber, Value, AsCInt;
      PrecisionDigits(pre, p, rest);
  }

  lemma {:induction false} PrecisionDigits(pre: seq<byte>, p: Precise, rest: seq<byte>)
    requires AllDecimal(p.digits) && (!p.star ==> !IsDecimal(First(rest)) && First(rest) != STAR)
    ensures var fmt, j := pre + PrecText(Some(p)) + rest, |pre| + 1 + |p.digits|;
            At(fmt, |pre|) == DOT && ParseNumber(fmt, |pre| + 1, 0) == (Value(p.digits, 0), j) && (At(fmt, j) == STAR <==> p.star)
  {
    hide ParseNumber, Value, AllDecimal, At;
    var dot, r := pre + [DOT], StarText(p.star) + rest;
    PrecisionSplit(pre, p, rest);
    AtSplit(pre, [DOT] + (p.digits + r));
    NumberRead(dot, p.digits, r, 0);
    AtSplit(dot + p.digits, r);
  }

  lemma {:induction false} PrecisionSplit(pre: seq<byte>, p: Precise, rest: seq<byte>)
    ensures var fmt, r := pre + PrecText(Some(p)) + rest, StarText(p.star) + rest;
            fmt == pre + ([DOT] + (p.digits + r)) && fmt == (pre + [DOT]) + p.digits + r
  {
    hide StarText;
    var d, star := [DOT] + p.digits, StarText(p.star);
    Assoc(pre, d + star, rest);
    Assoc(d, star, rest);
    Assoc([DOT], p.digits, star + rest);
    Assoc(pre, [DOT], p.digits + (star + rest));
    Assoc(pre + [DOT], p.digits, star + rest);
  }

  lemma {:induction false} LengthRead(pre: seq<byte>, s: Spec, rest: seq<byte>)
    requires IsSpec(s) && First(rest) == s.conv
    ensures ParseLength(pre + s.length + rest, |pre|) == (IsLong(s), |pre| + |s.length|)
  {
    var fmt := pre + s.length + rest;
    AtSplit(pre, s.length + rest);
    assert fmt == pre + (s.length + rest);
    if s.length != [] {
      AtSplit(pre + s.length[..1], s.length[1..] + rest);
      assert fmt == pre + s.length[..1] + (s.length[1..] + rest);
    }
  }

  /** What is left of a directive behind its width digits and its star. */
  function Behind(s: Spec, post: seq<byte>): seq<byte> {
    PrecText(s.prec) + (s.length + post)
  }

  lemma {:induction false} Firsts(s: Spec, post: seq<byte>)
    requires First(post) == s.conv
    ensures First(s.length + post) == AfterPrec(s) && First(Behind(s, post)) == AfterStar(s)
    ensures First(StarText(s.star) + Behind(s, post)) == AfterWidth(s)
    ensures First(s.width + (StarText(s.star) + Behind(s, post))) == AfterFlags(s)
  {
  }

  /** The text around each of the parts. */
  lemma {:induction false} Splits(pre: seq<byte>, s: Spec, post: seq<byte>)
    ensures var fmt, p1 := pre + Render(s) + post, pre + s.flags; var p2 := p1 + s.width + StarText(s.star);
            fmt == p1 + (s.width + (StarText(s.star) + Behind(s, post)))
            && fmt == p1 + s.width + (StarText(s.star) + Behind(s, post))
            && fmt == p2 + PrecText(s.prec) + (s.length + post)
            && fmt == p2 + PrecText(s.prec) + s.length + post
            && |pre| + |Render(s)| == |p2 + PrecText(s.prec) + s.length|
  {
    var star, prec := StarText(s.star), PrecText(s.prec);
    var p1 := pre + s.flags;
    var p2 := p1 + s.width + star;
    assert pre + Render(s) == p2 + prec + s.length;
    assert p2 + prec + s.length + post == p2 + prec + (s.length + post);
    assert p2 + prec + (s.length + post) == p2 + Behind(s, post);
    assert p2 + Behind(s, post) == p1 + s.width + (star + Behind(s, post));
    assert p1 + s.width + (star + Behind(s, post)) == p1 + (s.width + (star + Behind(s, post)));
  }

  function Whole(pre: seq<byte>, s: Spec, post: seq<byte>): seq<byte> {
    pre + Render(s) + post
  }

  /** Where the width, the precision and the length modifier of a directive begin. */
  function WidthAt(pre: nat, s: Spec): nat {
    pre + |s.flags|
  }

  function PrecAt(pre: nat, s: Spec): nat {
    WidthAt(pre, s) + |s.width| + Bit(s.star)
  }

  function LengthAt(pre: nat, s: Spec): nat {
    PrecAt(pre, s) + |PrecText(s.prec)|
  }

  lemma {:induction false} FlagsPart(pre: seq<byte>, s: Spec, post: seq<byte>)
    requires IsSpec(s) && First(post) == s.conv
    ensures ParseFlags(Whole(pre, s, post), Flags(false, false, |pre|))
         == Flags(45 in s.flags, ZERO in s.flags, WidthAt(|pre|, s))
  {
    hide Render, Behind, ParseFlags;
    Firsts(s, post);
    Splits(pre, s, post);
    FlagsRead(pre, s.flags, s.width + (StarText(s.star) + Behind(s, post)), false, false);
  }

  lemma {:induction false} WidthPart(pre: seq<byte>, s: Spec, post: seq<byte>, left: bool, zero: bool, args: VaList, k: nat)
    requires IsSpec(s) && First(post) == s.conv
    ensures ParseWidth(Whole(pre, s, post), Flags(left, zero, WidthAt(|pre|, s)), args, k)
         == if Value(s.width, 0) < U64 && (s.star ==> AsCInt(args(k)) != -0x8000_0000)
            then Some(Width(left || (s.star && AsCInt(args(k)) < 0), WidthOf(s, args, k), PrecAt(|pre|, s), k + Bit(s.star)))
            else None
  {
    hide Render, Behind, ParseWidth, Value, AsCInt, IsSpec, WidthOf;
    Firsts(s, post);
    Splits(pre, s, post);
    WidthRead(pre + s.flags, s, Behind(s, post), left, zero, args, k);
  }

  lemma {:induction false} PrecisionPart(pre: seq<byte>, s: Spec, post: seq<byte>, args: VaList, k: nat)
    requires IsSpec(s) && First(post) == s.conv
    ensures ParsePrecision(Whole(pre, s, post), PrecAt(|pre|, s), args, k + Bit(s.star))
         == if s.prec.Some? && Value(s.prec.value.digits, 0) >= U64 then None
            else Some(Precision(PrecOf(s, args, k), LengthAt(|pre|, s), k + Stars(s)))
  {
    hide Render, Behind, ParsePrecision, Value, PrecText, PrecOf, AsCInt, IsSpec;
    Firsts(s, post);
    Splits(pre, s, post);
    PrecisionRead(pre + s.flags + s.width + StarText(s.star), s, s.length + post, args, k);
  }

  lemma {:induction false} LengthPart(pre: seq<byte>, s: Spec, post: seq<byte>)
    requires IsSpec(s) && First(post) == s.conv
    ensures |pre| + |Render(s)| == LengthAt(|pre|, s) + |s.length|
    ensures ParseLength(Whole(pre, s, post), LengthAt(|pre|, s)) == (IsLong(s), |pre| + |Render(s)|)
    ensures At(Whole(pre, s, post), |pre| + |Render(s)|) == s.conv
  {
    hide Behind, ParseLength, IsLong, PrecText, Render, IsSpec;
    Splits(pre, s, post);
    var p3 := pre + s.flags + s.width + StarText(s.star) + PrecText(s.prec);
    LengthRead(p3, s, post);
    AtSplit(p3 + s.length, post);
  }

  /** Reading a written directive gives the directive it stands for, whatever stands before and after
      it; `post` begins with the conversion, or is empty for a directive that is cut off. */
  lemma {:induction false} ReadsBack(pre: seq<byte>, s: Spec, post: seq<byte>, args: VaList, k: nat)
    requires IsSpec(s) && First(post) == s.conv
    ensures ParseDirective(Whole(pre, s, post), |pre|, args, k)
         == if NumbersFit(s, args, k) then Some(Parsed(Meant(s, args, k), |pre| + |Render(s)|, k + Stars(s))) else None
  {
    hide ParseFlags, ParseWidth, ParsePrecision, ParseLength, Value, Whole, Render, PrecOf, WidthOf, IsSpec,
      WidthAt, PrecAt, LengthAt, Stars, IsLong, AsCInt;
    LengthPart(pre, s, post);
    FlagsPart(pre, s, post);
    WidthPart(pre, s, post, 45 in s.flags, ZERO in s.flags, args, k);
    PrecisionPart(pre, s, post, args, k);
  }

  // ----- formats -----

  datatype Piece = Plain(c: byte) | Conversion(spec: Spec)

  predicate IsPiece(p: Piece) {
    match p
    case Plain(c) => c != PERCENT
    case Conversion(s) => IsSpec(s)
  }

  function RenderPiece(p: Piece): seq<byte> {
    match p
    case Plain(c) => [c]
    case Conversion(s) => [PERCENT] + Render(s) + [s.conv]
  }

  function RenderAll(ps: seq<Piece>): seq<byte> {
    if ps == [] then [] else RenderPiece(ps[0]) + RenderAll(ps[1..])
  }

  predicate IsCut(cut: Option<Spec>) {
    cut.Some? ==> IsSpec(cut.value) && cut.value.conv == 0
  }

  /** A directive that the end of the format cuts off before its conversion. */
  function CutText(cut: Option<Spec>): seq<byte> {
    if cut.Some? then [PERCENT] + Render(cut.value) else []
  }

  predicate ArePieces(ps: seq<Piece>) {
    forall i :: 0 <= i < |ps| ==> IsPiece(ps[i])
  }

  /** How many arguments a piece takes. */
  function Taken(p: Piece): nat {
    match p
    case Plain(_) => 0
    case Conversion(s) => Stars(s) + Bit(TakesArgument(s.conv))
  }

  /** The value can be converted: it can be negated, its digits fit the buffer, it is a character. */
  predicate ValueFits(conv: byte, long: bool, prec: Option<nat>, slot: Slot) {
    (conv in {100, 105} ==> (if long then AsCLong(slot) else AsCInt(slot)) != -0x8000_0000_0000_0000)
    && (conv in {100, 105, 117, 120, 88, 111} && prec.Some? ==> prec.value <= 64)
    && (conv == 99 ==> AsCInt(slot) >= 0)
  }

  /** The piece can be printed with its arguments from slot `k` on. */
  predicate Fits(p: Piece, args: VaList, k: nat)
    requires IsPiece(p)
  {
    match p
    case Plain(_) => true
    case Conversion(s) =>
      NumbersFit(s, args, k) && ValueFits(s.conv, IsLong(s), PrecOf(s, args, k), args(k + Stars(s)))
  }

  predicate AllFit(ps: seq<Piece>, args: VaList, k: nat)
    requires ArePieces(ps)
    decreases ps
  {
    ps == [] || (Fits(ps[0], args, k) && AllFit(ps[1..], args, k + Taken(ps[0])))
  }

  /** The text of a piece that can be printed. */
  function TextOf(p: Piece, args: VaList, k: nat): seq<byte>
    requires IsPiece(p)
  {
    match p
    case Plain(c) => [c]
    case Conversion(s) =>
      var text := Convert(Meant(s, args, k), args(k + Stars(s)));
      if text.Some? then text.value else []
  }

  function Texts(ps: seq<Piece>, args: VaList, k: nat): seq<byte>
    requires ArePieces(ps)
    decreases ps
  {
    if ps == [] then [] else TextOf(ps[0], args, k) + Texts(ps[1..], args, k + Taken(ps[0]))
  }

  // ----- the text of a list of pieces -----

  lemma {:induction false} ConvertIff(d: Directive, slot: Slot)
    ensures Convert(d, slot).Some? <==> ValueFits(d.conv, d.long, d.prec, slot)
  {
    hide FmtUint, FmtStr, AsCInt, AsCLong, AsUnsigned;
  }

  /** The format from a directive on. */
  lemma {:induction false} FormatDirective(fmt: seq<byte>, i: nat, args: VaList, k: nat)
    requires i < |fmt| && fmt[i] == PERCENT
    ensures FormatFrom(fmt, i, args, k) ==
            match ParseDirective(fmt, i + 1, args, k)
            case None => None
            case Some(p) =>
              if Convert(p.d, args(p.k)) == None || p.i == |fmt| then None
              else Prepend(Convert(p.d, args(p.k)).value, FormatFrom(fmt, p.i + 1, args, p.k + Bit(TakesArgument(p.d.conv))))
  {
    hide ParseDirective, Convert, TakesArgument;
  }

  lemma {:induction false} FormatPiece(pre: seq<byte>, p: Piece, rest: seq<byte>, args: VaList, k: nat)
    requires IsPiece(p)
    ensures var fmt := pre + RenderPiece(p) + rest;
            FormatFrom(fmt, |pre|, args, k)
            == if Fits(p, args, k) then Prepend(TextOf(p, args, k), FormatFrom(fmt, |pre| + |RenderPiece(p)|, args, k + Taken(p)))
               else None
  {
    hide IsSpec, Render, Fits, TextOf, Taken;
    match p
    case Plain(c) => FormatPlain(pre, c, rest, args, k);
    case Conversion(s) => FormatConversion(pre, s, rest, args, k);
  }

  lemma {:induction false} FormatPlain(pre: seq<byte>, c: byte, rest: seq<byte>, args: VaList, k: nat)
    requires c != PERCENT
    ensures var fmt, p := pre + [c] + rest, Plain(c);
            FormatFrom(fmt, |pre|, args, k) == Prepend(TextOf(p, args, k), FormatFrom(fmt, |pre| + 1, args, k + Taken(p)))
            && Fits(p, args, k)
  {
    assert (pre + [c] + rest)[|pre|] == c;
  }

  lemma {:induction false} FormatConversion(pre: seq<byte>, s: Spec, rest: seq<byte>, args: VaList, k: nat)
    requires IsSpec(s)
    ensures var p := Conversion(s); var fmt := pre + ([PERCENT] + Render(s) + [s.conv]) + rest;
            FormatFrom(fmt, |pre|, args, k)
            == if Fits(p, args, k) then Prepend(TextOf(p, args, k), FormatFrom(fmt, |pre| + 2 + |Render(s)|, args, k + Taken(p)))
               else None
  {
    hide Render, NumbersFit, Meant, IsSpec, Convert, ValueFits, Stars, IsLong, PrecOf, TakesArgument, ParseDirective, FormatFrom;
    var fmt := pre + ([PERCENT] + Render(s) + [s.conv]) + rest;
    DirectiveIn(pre, s, [s.conv] + rest, args, k);
    assert fmt == pre + ([PERCENT] + Render(s)) + ([s.conv] + rest);
    FormatDirective(fmt, |pre|, args, k);
    MeantParts(s, args, k);
    ConvertIff(Meant(s, args, k), args(k + Stars(s)));
  }

  lemma {:induction false} MeantParts(s: Spec, args: VaList, k: nat)
    requires IsSpec(s)
    ensures var d := Meant(s, args, k); d.conv == s.conv && d.long == IsLong(s) && d.prec == PrecOf(s, args, k)
  {
  }

  lemma {:induction false} DirectiveIn(pre: seq<byte>, s: Spec, post: seq<byte>, args: VaList, k: nat)
    requires IsSpec(s) && First(post) == s.conv
    ensures var fmt := pre + ([PERCENT] + Render(s)) + post;
            fmt[|pre|] == PERCENT &&
            ParseDirective(fmt, |pre| + 1, args, k)
            == if NumbersFit(s, args, k) then Some(Parsed(Meant(s, args, k), |pre| + 1 + |Render(s)|, k + Stars(s))) else None
  {
    hide Render, NumbersFit, Meant, IsSpec, Stars, ParseDirective;
    assert pre + ([PERCENT] + Render(s)) + post == Whole(pre + [PERCENT], s, post);
    ReadsBack(pre + [PERCENT], s, post, args, k);
  }

  /** A format that ends inside a directive has no text. */
  lemma {:induction false} FormatCut(pre: seq<byte>, s: Spec, args: VaList, k: nat)
    requires IsSpec(s) && s.conv == 0
    ensures FormatFrom(pre + ([PERCENT] + Render(s)), |pre|, args, k) == None
  {
    hide Render, NumbersFit, Meant, IsSpec, Stars, ParseDirective, Convert;
    var fmt := pre + ([PERCENT] + Render(s));
    DirectiveIn(pre, s, [], args, k);
    assert fmt == fmt + [];
    FormatDirective(fmt, |pre|, args, k);
  }

  /** A list of pieces has a text exactly if each of them fits and none is cut off, and then it is
      theirs, one after the other. */
  lemma {:induction false} FormatRendered(pre: seq<byte>, ps: seq<Piece>, cut: Option<Spec>, args: VaList, k: nat)
    requires ArePieces(ps) && IsCut(cut)
    ensures FormatFrom(pre + (RenderAll(ps) + CutText(cut)), |pre|, args, k)
         == if cut == None && AllFit(ps, args, k) then Some(Texts(ps, args, k)) else None
    decreases ps
  {
    hide FormatFrom, IsSpec, Fits, TextOf, RenderPiece, Taken, Render, CutText;
    if ps == [] {
      EndOfFormat(pre, cut, args, k);
      assert RenderAll(ps) + CutText(cut) == CutText(cut);
    } else {
      var p, rest := ps[0], RenderAll(ps[1..]) + CutText(cut);
      assert pre + (RenderAll(ps) + CutText(cut)) == pre + RenderPiece(p) + rest;
      FormatPiece(pre, p, rest, args, k);
      FormatRendered(pre + RenderPiece(p), ps[1..], cut, args, k + Taken(p));
    }
  }

  lemma {:induction false} EndOfFormat(pre: seq<byte>, cut: Option<Spec>, args: VaList, k: nat)
    requires IsCut(cut)
    ensures FormatFrom(pre + CutText(cut), |pre|, args, k) == if cut == None then Some([]) else None
  {
    hide IsSpec, Render;
    match cut
    case None => assert pre + CutText(cut) == pre;
    case Some(s) => FormatCut(pre, s, args, k);
  }

  // ----- every format is such a list -----

  function FlagCount(t: seq<byte>): (n: nat)
    ensures n <= |t| && AllFlags(t[..n]) && !IsFlag(First(t[n..]))
  {
    if t != [] && IsFlag(t[0]) then
      var n := FlagCount(t[1..]);
      assert t[..1 + n] == [t[0]] + t[1..][..n] && t[1 + n..] == t[1..][n..];
      1 + n
    else 0
  }

  function DigitCount(t: seq<byte>): (n: nat)
    ensures n <= |t| && AllDecimal(t[..n]) && !IsDecimal(First(t[n..]))
  {
    if t != [] && IsDecimal(t[0]) then
      var n := DigitCount(t[1..]);
      assert t[..1 + n] == [t[0]] + t[1..][..n] && t[1 + n..] == t[1..][n..];
      1 + n
    else 0
  }

  lemma {:induction false} SplitStar(t: seq<byte>) returns (star: bool, rest: seq<byte>)
    ensures t == StarText(star) + rest && (!star ==> First(rest) != STAR)
  {
    star := First(t) == STAR;
    rest := if star then t[1..] else t;
  }

  lemma {:induction false} SplitPrecision(t: seq<byte>) returns (prec: Option<Precise>, rest: seq<byte>)
    ensures t == PrecText(prec) + rest
    ensures match prec
            case None => First(rest) != DOT
            case Some(p) => AllDecimal(p.digits) && (!p.star ==> !IsDecimal(First(rest)) && First(rest) != STAR)
  {
    hide DigitCount, AllDecimal, IsDecimal;
    if First(t) == DOT {
      var u := t[1..];
      var n := DigitCount(u);
      var star, r := SplitStar(u[n..]);
      assert u == u[..n] + u[n..];
      prec, rest := Some(Precise(u[..n], star)), r;
      PrecisionText(t, prec.value, r);
    } else {
      prec, rest := None, t;
    }
  }

  lemma {:induction false} PrecisionText(t: seq<byte>, p: Precise, r: seq<byte>)
    requires t != [] && t[0] == DOT && t[1..] == p.digits + (StarText(p.star) + r)
    ensures t == PrecText(Some(p)) + r
  {
    hide StarText;
    Assoc([DOT] + p.digits, StarText(p.star), r);
    Assoc([DOT], p.digits, StarText(p.star) + r);
  }

  lemma {:induction false} SplitLength(t: seq<byte>) returns (length: seq<byte>, rest: seq<byte>)
    ensures t == length + rest && length in LENGTHS
    ensures (length == [] ==> !IsLengthLetter(First(rest))) && (length == [108] ==> First(rest) != 108)
         && (length == [104] ==> First(rest) != 104)
  {
    var n := if !IsLengthLetter(First(t)) then 0 else if t[0] in {108, 104} && First(t[1..]) == t[0] then 2 else 1;
    length, rest := t[..n], t[n..];
    if n == 1 { assert length == [t[0]]; }
    if n == 2 { assert length == [t[0], t[0]]; }
  }

  /** Every text after a percent sign is a directive up to its conversion, and what follows. */
  lemma {:induction false} SplitDirective(t: seq<byte>) returns (s: Spec, post: seq<byte>)
    ensures t == Render(s) + post && IsSpec(s) && First(post) == s.conv
  {
    hide AllDecimal, AllFlags, FlagCount, DigitCount, StarText, PrecText;
    var n := FlagCount(t);
    var t1 := t[n..];
    var m := DigitCount(t1);
    var t2 := t1[m..];
    var star, t3 := SplitStar(t2);
    var prec, t4 := SplitPrecision(t3);
    var length, t5 := SplitLength(t4);
    post := t5;
    s := Spec(t[..n], t1[..m], star, prec, length, First(t5));
    assert t == s.flags + t1 && t1 == s.width + t2;
    Firsts(s, post);
    assert t2 == StarText(star) + Behind(s, post);
    SplitsEmpty(s, post);
  }

  lemma {:induction false} SplitsEmpty(s: Spec, post: seq<byte>)
    ensures Render(s) + post == s.flags + (s.width + (StarText(s.star) + Behind(s, post)))
  {
    hide Render, Behind, StarText;
    Splits([], s, post);
    assert [] + Render(s) + post == Render(s) + post;
    assert [] + s.flags == s.flags;
  }

  lemma {:induction false} Decompose(fmt: seq<byte>) returns (ps: seq<Piece>, cut: Option<Spec>)
    ensures fmt == RenderAll(ps) + CutText(cut) && ArePieces(ps) && IsCut(cut)
    decreases |fmt|
  {
    hide Render, IsSpec, RenderAll;
    if fmt == [] {
      NoPieces();
      ps, cut := [], None;
    } else if fmt[0] != PERCENT {
      ps, cut := Decompose(fmt[1..]);
      AddPiece(Plain(fmt[0]), ps, cut);
      ps := [Plain(fmt[0])] + ps;
    } else {
      var s, post := SplitDirective(fmt[1..]);
      if post == [] {
        ps, cut := [], Some(s);
        NoPieces();
        assert fmt == [PERCENT] + Render(s);
      } else {
        ps, cut := Decompose(post[1..]);
        AddPiece(Conversion(s), ps, cut);
        assert fmt == RenderPiece(Conversion(s)) + post[1..];
        ps := [Conversion(s)] + ps;
      }
    }
  }

  lemma {:induction false} NoPieces()
    ensures RenderAll([]) == []
  {
  }

  lemma {:induction false} AddPiece(p: Piece, ps: seq<Piece>, cut: Option<Spec>)
    ensures RenderAll([p] + ps) + CutText(cut) == RenderPiece(p) + (RenderAll(ps) + CutText(cut))
  {
    hide RenderPiece, CutText;
    assert ([p] + ps)[1..] == ps;
    Assoc(RenderPiece(p), RenderAll(ps), CutText(cut));
  }

  /** Which formats have a text: each format is a list of pieces, perhaps with a cut-off directive at
      its end, and it has a text exactly if nothing is cut off and every piece fits its arguments. */
  lemma {:induction false} HasTextIff(fmt: seq<byte>, args: VaList) returns (ps: seq<Piece>, cut: Option<Spec>)
    ensures fmt == RenderAll(ps) + CutText(cut) && ArePieces(ps) && IsCut(cut)
    ensures FormatFrom(fmt, 0, args, 0)
         == if cut == None && AllFit(ps, args, 0) then Some(Texts(ps, args, 0)) else None
  {
    hide FormatFrom, RenderAll, CutText, AllFit, Texts;
    ps, cut := Decompose(fmt);
    FormatRendered([], ps, cut, args, 0);
    assert [] + fmt == fmt;
  }
}
