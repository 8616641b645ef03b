/**
 The command language as the tokenizer reads it: every line is a list of blanks, ampersands and words,
 a word is a list of plain, single-quoted and double-quoted pieces with variables in them, and this says
 which arguments each line stands for.
 */
module ShellSyntax {

  import opened Bytes
  import opened Tokenizer

  // ----- lines as written -----

  datatype Part = Lit(c: byte) | Var(name: Text)

  /** A quotation that is not closed goes to the end of the line. */
  datatype Seg = Open(part: Part) | Single(text: Text, closed: bool) | Double(parts: seq<Part>, closed: bool)

  /** `amp` is an ampersand right behind the word. */
  datatype Item = Gap(c: byte) | Amp | Word(segs: seq<Seg>, amp: bool)

  function If(b: bool, c: byte): Text {
    if b then [c] else []
  }

  function RenderPart(p: Part): Text {
    match p case Lit(c) => [c] case Var(name) => [DOLLAR] + name
  }

  function RenderParts(ps: seq<Part>): Text {
    if ps == [] then [] else RenderPart(ps[0]) + RenderParts(ps[1..])
  }

  function RenderSeg(s: Seg): Text {
    match s
    case Open(p) => RenderPart(p)
    case Single(t, closed) => [QUOTE] + (t + If(closed, QUOTE))
    case Double(ps, closed) => [DQUOTE] + (RenderParts(ps) + If(closed, DQUOTE))
  }

  function RenderSegs(ss: seq<Seg>): Text {
    if ss == [] then [] else RenderSeg(ss[0]) + RenderSegs(ss[1..])
  }

  function RenderItem(i: Item): Text {
    match i case Gap(c) => [c] case Amp => [AMP] case Word(ss, amp) => RenderSegs(ss) + If(amp, AMP)
  }

  function RenderAll(items: seq<Item>): Text {
    if items == [] then [] else RenderItem(items[0]) + RenderAll(items[1..])
  }

  // ----- each part is of its kind and ends where it does, with `u` behind it -----

  ghost predicate PartOk(p: Part, u: Text, quoted: bool) {
    match p
    case Lit(c) => c !in (if quoted then {DQUOTE, DOLLAR} else {SPACE, TAB, QUOTE, DQUOTE, AMP, DOLLAR})
    case Var(name) => IsName(name) && (u == [] || !IsIdent(u[0]))
  }

  ghost predicate PartsOk(ps: seq<Part>, u: Text) {
    ps == [] || (PartOk(ps[0], RenderParts(ps[1..]) + u, true) && PartsOk(ps[1..], u))
  }

  ghost predicate SegOk(s: Seg, u: Text) {
    match s
    case Open(p) => PartOk(p, u, false)
    case Single(t, closed) => QUOTE !in t && (closed || u == [])
    case Double(ps, closed) => PartsOk(ps, If(closed, DQUOTE) + u) && (closed || u == [])
  }

  ghost predicate SegsOk(ss: seq<Seg>, u: Text) {
    ss == [] || (SegOk(ss[0], RenderSegs(ss[1..]) + u) && SegsOk(ss[1..], u))
  }

  ghost predicate ItemOk(i: Item, u: Text) {
    match i
    case Gap(c) => c in {SPACE, TAB}
    case Amp => true
    case Word(ss, amp) => ss != [] && SegsOk(ss, If(amp, AMP) + u) && (amp || u == [] || u[0] in {SPACE, TAB})
  }

  ghost predicate ItemsOk(items: seq<Item>) {
    items == [] || (ItemOk(items[0], RenderAll(items[1..])) && ItemsOk(items[1..]))
  }

  // ----- what they stand for -----

  function Value(p: Part, env: Env): Text {
    match p case Lit(c) => [c] case Var(name) => Get(env, name)
  }

  function Values(ps: seq<Part>, env: Env): Text {
    if ps == [] then [] else Value(ps[0], env) + Values(ps[1..], env)
  }

  function SegValue(s: Seg, env: Env): Text {
    match s case Open(p) => Value(p, env) case Single(t, _) => t case Double(ps, _) => Values(ps, env)
  }

  function WordValue(ss: seq<Seg>, env: Env): Text {
    if ss == [] then [] else SegValue(ss[0], env) + WordValue(ss[1..], env)
  }

  /** The arguments of a line: each word adds its value, as far as the buffer goes, as one argument
      unless it is empty, until the argument array is full; an ampersand seen before that sends the
      command to the background. */
  function Meaning(items: seq<Item>, r: Result, argvCap: nat, cap: nat, env: Env): Result
    decreases items
  {
    if items == [] || |r.args| >= argvCap then r
    else match items[0]
      case Gap(_) => Meaning(items[1..], r, argvCap, cap, env)
      case Amp => Meaning(items[1..], r.(background := true), argvCap, cap, env)
      case Word(ss, amp) =>
        var v := WordValue(ss, env);
        var kept := v[..Min(|v|, if cap > |r.out| then cap - |r.out| else 0)];
        Meaning(items[1..], Result(r.args + Place(kept, |r.out|), r.out + kept, r.background || amp), argvCap, cap, env)
  }

  // ----- reading a word -----

  lemma {:induction false} EmitTwice(out: Text, cap: nat, a: Text, b: Text)
    requires |out| <= cap
    ensures Emit(Emit(out, cap, a), cap, b) == Emit(out, cap, a + b)
  {
    hide Emit;
    if |out| + |a| <= cap {
      EmitIs(out, cap, a, |a|);
      var k := Min(|b|, cap - |out| - |a|);
      EmitIs(out + a, cap, b, k);
      EmitIs(out, cap, a + b, |a| + k);
      assert a[..|a|] == a && (a + b)[..|a| + k] == a + b[..k];
      Assoc(out, a, b[..k]);
    } else {
      var k := cap - |out|;
      EmitIs(out, cap, a, k);
      EmitIs(out + a[..k], cap, b, 0);
      EmitIs(out, cap, a + b, k);
      assert (a + b)[..k] == a[..k] && b[..0] == [];
    }
  }

  lemma {:induction false} EmitIs(out: Text, cap: nat, s: Text, k: nat)
    requires |out| <= cap && k == Min(|s|, cap - |out|)
    ensures Emit(out, cap, s) == out + s[..k]
  {
  }

  lemma {:induction false} EmitNothing(out: Text, cap: nat)
    ensures Emit(out, cap, []) == out
  {
  }

  lemma {:induction false} SingleReads(t: Text, closed: bool, u: Text, out: Text, cap: nat)
    requires QUOTE !in t && (closed || u == []) && |out| <= cap
    ensures Quoted(t + (If(closed, QUOTE) + u), out, cap) == Scan(u, Emit(out, cap, t))
    decreases t
  {
    hide Emit;
    var s := t + (If(closed, QUOTE) + u);
    if t == [] {
      EmitNothing(out, cap);
      assert s == If(closed, QUOTE) + u;
      assert closed ==> s[1..] == u;
    } else {
      var c, t' := t[0], t[1..];
      assert s[1..] == t' + (If(closed, QUOTE) + u) && s[0] == c;
      assert c in t && t == [c] + t';
      SingleReads(t', closed, u, Emit(out, cap, [c]), cap);
      EmitTwice(out, cap, [c], t');
    }
  }

  lemma {:induction false} VarReads(name: Text, u: Text, out: Text, cap: nat, env: Env)
    requires IsName(name) && (u == [] || !IsIdent(u[0]))
    ensures Expand([DOLLAR] + name + u, out, cap, env) == Scan(u, Emit(out, cap, Get(env, name)))
  {
    hide NameLength, Get, Emit;
    var s := [DOLLAR] + name + u;
    assert s[1..] == name + u;
    NameEnds(name, u);
    assert s[1..1 + |name|] == name && s[1 + |name|..] == u;
  }

  lemma {:induction false} DoubleReads(ps: seq<Part>, closed: bool, u: Text, out: Text, cap: nat, env: Env)
    requires PartsOk(ps, If(closed, DQUOTE) + u) && (closed || u == []) && |out| <= cap
    ensures DoubleQuoted(RenderParts(ps) + (If(closed, DQUOTE) + u), out, cap, env) == Scan(u, Emit(out, cap, Values(ps, env)))
    decreases ps
  {
    hide Emit, Expand, Get, DoubleQuoted;
    var end := If(closed, DQUOTE) + u;
    if ps == [] {
      EmitNothing(out, cap);
      DoubleEnds(closed, u, out, cap, env);
      assert RenderParts(ps) + end == end;
    } else {
      var p, rest := ps[0], RenderParts(ps[1..]) + end;
      Assoc(RenderPart(p), RenderParts(ps[1..]), end);
      DoublePart(p, rest, out, cap, env);
      DoubleReads(ps[1..], closed, u, Emit(out, cap, Value(p, env)), cap, env);
      EmitTwice(out, cap, Value(p, env), Values(ps[1..], env));
    }
  }

  lemma {:induction false} DoubleEnds(closed: bool, u: Text, out: Text, cap: nat, env: Env)
    requires closed || u == []
    ensures DoubleQuoted(If(closed, DQUOTE) + u, out, cap, env) == Scan(u, out)
  {
    var s := If(closed, DQUOTE) + u;
    assert closed ==> s[1..] == u;
  }

  lemma {:induction false} DoublePart(p: Part, u: Text, out: Text, cap: nat, env: Env)
    requires PartOk(p, u, true)
    ensures DoubleQuoted(RenderPart(p) + u, out, cap, env) == DoubleQuoted(u, Emit(out, cap, Value(p, env)), cap, env)
  {
    hide Emit, Expand, Get;
    var s := RenderPart(p) + u;
    match p
    case Lit(c) => assert s[0] == c && s[1..] == u;
    case Var(name) => VarReads(name, u, out, cap, env);
  }

  lemma {:induction false} OpenReads(p: Part, u: Text, out: Text, cap: nat, env: Env)
    requires PartOk(p, u, false)
    ensures Token(RenderPart(p) + u, out, cap, env) == Token(u, Emit(out, cap, Value(p, env)), cap, env)
  {
    hide Emit, Expand, Get, Quoted, DoubleQuoted;
    var s := RenderPart(p) + u;
    match p
    case Lit(c) => assert s[0] == c && s[1..] == u;
    case Var(name) => VarReads(name, u, out, cap, env);
  }

  lemma {:induction false} TokenSingle(s: Text, out: Text, cap: nat, env: Env)
    ensures var q := Quoted(s, out, cap); Token([QUOTE] + s, out, cap, env) == Token(q.rest, q.out, cap, env)
  {
    hide Quoted;
    assert ([QUOTE] + s)[1..] == s;
  }

  lemma {:induction false} TokenDouble(s: Text, out: Text, cap: nat, env: Env)
    ensures var q := DoubleQuoted(s, out, cap, env); Token([DQUOTE] + s, out, cap, env) == Token(q.rest, q.out, cap, env)
  {
    hide DoubleQuoted;
    assert ([DQUOTE] + s)[1..] == s;
  }

  lemma {:induction false} SegReads(seg: Seg, u: Text, out: Text, cap: nat, env: Env)
    requires SegOk(seg, u) && |out| <= cap
    ensures Token(RenderSeg(seg) + u, out, cap, env) == Token(u, Emit(out, cap, SegValue(seg, env)), cap, env)
  {
    hide Emit, Quoted, DoubleQuoted, PartsOk, PartOk, RenderParts, RenderPart, Value, Values, Token;
    match seg
    case Open(p) => OpenReads(p, u, out, cap, env);
    case Single(t, closed) =>
      var s := t + (If(closed, QUOTE) + u);
      Assoc(t, If(closed, QUOTE), u);
      assert RenderSeg(seg) + u == [QUOTE] + s;
      TokenSingle(s, out, cap, env);
      SingleReads(t, closed, u, out, cap);
    case Double(ps, closed) =>
      var s := RenderParts(ps) + (If(closed, DQUOTE) + u);
      Assoc(RenderParts(ps), If(closed, DQUOTE), u);
      assert RenderSeg(seg) + u == [DQUOTE] + s;
      TokenDouble(s, out, cap, env);
      DoubleReads(ps, closed, u, out, cap, env);
  }

  lemma {:induction false} SegsRead(ss: seq<Seg>, u: Text, out: Text, cap: nat, env: Env)
    requires SegsOk(ss, u) && |out| <= cap
    ensures Token(RenderSegs(ss) + u, out, cap, env) == Token(u, Emit(out, cap, WordValue(ss, env)), cap, env)
    decreases ss
  {
    hide Emit, Token, SegOk, RenderSeg, SegValue;
    if ss == [] {
      EmitNothing(out, cap);
      assert RenderSegs(ss) + u == u;
    } else {
      var seg, rest := ss[0], RenderSegs(ss[1..]) + u;
      Assoc(RenderSeg(seg), RenderSegs(ss[1..]), u);
      SegReads(seg, rest, out, cap, env);
      SegsRead(ss[1..], u, Emit(out, cap, SegValue(seg, env)), cap, env);
      EmitTwice(out, cap, SegValue(seg, env), WordValue(ss[1..], env));
    }
  }

  /** A word and what ends it. */
  lemma {:induction false} WordReads(ss: seq<Seg>, amp: bool, u: Text, out: Text, cap: nat, env: Env)
    requires ItemOk(Word(ss, amp), u) && |out| <= cap
    ensures Token(RenderSegs(ss) + If(amp, AMP) + u, out, cap, env) == Piece(u, Emit(out, cap, WordValue(ss, env)), amp)
  {
    hide Emit, SegsOk, RenderSegs, WordValue;
    var end := If(amp, AMP) + u;
    Assoc(RenderSegs(ss), If(amp, AMP), u);
    SegsRead(ss, end, out, cap, env);
    assert amp ==> end[1..] == u;
  }

  // ----- reading a line -----

  lemma {:induction false} FirstOfSeg(seg: Seg, u: Text)
    requires SegOk(seg, u)
    ensures RenderSeg(seg) != [] && !Blank(RenderSeg(seg)[0]) && RenderSeg(seg)[0] != AMP
  {
  }

  lemma {:induction false} ItemReads(i: Item, u: Text, r: Result, argvCap: nat, cap: nat, env: Env)
    requires ItemOk(i, u) && |r.out| <= cap && |r.args| < argvCap
    ensures match i
            case Gap(_) => Tokenize(RenderItem(i) + u, r, argvCap, cap, env) == Tokenize(u, r, argvCap, cap, env)
            case Amp => Tokenize(RenderItem(i) + u, r, argvCap, cap, env) == Tokenize(u, r.(background := true), argvCap, cap, env)
            case Word(ss, amp) =>
              var out := Emit(r.out, cap, WordValue(ss, env));
              Tokenize(RenderItem(i) + u, r, argvCap, cap, env)
              == Tokenize(u, Next(r, Piece(u, out, amp)), argvCap, cap, env)
  {
    hide Token, Emit, WordValue, Next;
    var s := RenderItem(i) + u;
    match i
    case Gap(c) =>
      assert s[1..] == u;
      assert SkipBlanks(s) == SkipBlanks(u);
    case Amp =>
      assert s[1..] == u && SkipBlanks(s) == s;
    case Word(ss, amp) =>
      FirstOfSeg(ss[0], RenderSegs(ss[1..]) + (If(amp, AMP) + u));
      assert s[0] == RenderSeg(ss[0])[0];
      assert SkipBlanks(s) == s;
      WordReads(ss, amp, u, r.out, cap, env);
  }

  lemma {:induction false} NextKept(r: Result, v: Text, cap: nat, u: Text, amp: bool)
    requires |r.out| <= cap
    ensures var kept := v[..Min(|v|, if cap > |r.out| then cap - |r.out| else 0)];
            Next(r, Piece(u, Emit(r.out, cap, v), amp))
            == Result(r.args + Place(kept, |r.out|), r.out + kept, r.background || amp) && |r.out + kept| <= cap
  {
    assert r.args + [] == r.args;
  }

  /** Tokenizing a line gives the arguments that it stands for. */
  lemma {:induction false} ItemsRead(items: seq<Item>, r: Result, argvCap: nat, cap: nat, env: Env)
    requires ItemsOk(items) && |r.out| <= cap
    ensures Tokenize(RenderAll(items), r, argvCap, cap, env) == Meaning(items, r, argvCap, cap, env)
    decreases items
  {
    hide ItemOk, RenderItem, WordValue, Tokenize, Next, Place, Emit;
    if items == [] || |r.args| >= argvCap {
      TokenizeEnds(RenderAll(items), r, argvCap, cap, env);
    } else {
      var i, rest := items[0], items[1..];
      ItemReads(i, RenderAll(rest), r, argvCap, cap, env);
      match i
      case Gap(_) => ItemsRead(rest, r, argvCap, cap, env);
      case Amp => ItemsRead(rest, r.(background := true), argvCap, cap, env);
      case Word(ss, amp) =>
        var v := WordValue(ss, env);
        var kept := v[..Min(|v|, if cap > |r.out| then cap - |r.out| else 0)];
        NextKept(r, v, cap, RenderAll(rest), amp);
        ItemsRead(rest, Result(r.args + Place(kept, |r.out|), r.out + kept, r.background || amp), argvCap, cap, env);
    }
  }

  lemma {:induction false} TokenizeEnds(s: Text, r: Result, argvCap: nat, cap: nat, env: Env)
    requires s == [] || |r.args| >= argvCap
    ensures Tokenize(s, r, argvCap, cap, env) == r
  {
  }

  // ----- every line is such a list -----

  lemma {:induction false} SplitSingle(s: Text) returns (t: Text, closed: bool, u: Text)
    ensures s == t + (If(closed, QUOTE) + u) && QUOTE !in t && (closed || u == [])
    decreases s
  {
    if s == [] {
      t, closed, u := [], false, [];
    } else if s[0] == QUOTE {
      t, closed, u := [], true, s[1..];
    } else {
      t, closed, u := SplitSingle(s[1..]);
      assert s == [s[0]] + (t + (If(closed, QUOTE) + u));
      t := [s[0]] + t;
    }
  }

  lemma {:induction false} NameIs(s: Text)
    ensures var n := NameLength(s); IsName(s[..n]) && (s[n..] == [] || !IsIdent(s[n..][0]))
  {
    if s != [] && IsIdent(s[0]) {
      NameIs(s[1..]);
      var n := NameLength(s[1..]);
      assert s[..1 + n] == [s[0]] + s[1..][..n] && s[1 + n..] == s[1..][n..];
    }
  }

  /** The variable, or the plain byte, at the front. */
  lemma {:induction false} SplitPart(s: Text, quoted: bool) returns (p: Part, u: Text)
    requires s != [] && (s[0] == DOLLAR || PartOk(Lit(s[0]), [], quoted))
    ensures s == RenderPart(p) + u && |u| < |s| && PartOk(p, u, quoted)
  {
    if s[0] == DOLLAR {
      var n := NameLength(s[1..]);
      NameIs(s[1..]);
      p, u := Var(s[1..][..n]), s[1..][n..];
    } else {
      p, u := Lit(s[0]), s[1..];
    }
  }

  lemma {:induction false} SplitDouble(s: Text) returns (ps: seq<Part>, closed: bool, u: Text)
    ensures s == RenderParts(ps) + (If(closed, DQUOTE) + u) && PartsOk(ps, If(closed, DQUOTE) + u) && (closed || u == [])
    decreases |s|
  {
    hide PartOk, RenderPart;
    if s == [] {
      ps, closed, u := [], false, [];
    } else if s[0] == DQUOTE {
      ps, closed, u := [], true, s[1..];
    } else {
      PlainPart(s[0]);
      var p, rest := SplitPart(s, true);
      ps, closed, u := SplitDouble(rest);
      Assoc(RenderPart(p), RenderParts(ps), If(closed, DQUOTE) + u);
      assert ([p] + ps)[1..] == ps;
      ps := [p] + ps;
    }
  }

  lemma {:induction false} PlainPart(c: byte)
    ensures c != DQUOTE && c != DOLLAR ==> PartOk(Lit(c), [], true)
    ensures c !in {SPACE, TAB, QUOTE, DQUOTE, AMP, DOLLAR} ==> PartOk(Lit(c), [], false)
  {
  }

  lemma {:induction false} SplitSeg(s: Text) returns (seg: Seg, u: Text)
    requires s != [] && s[0] !in {SPACE, TAB, AMP}
    ensures s == RenderSeg(seg) + u && |u| < |s| && SegOk(seg, u)
  {
    hide PartsOk, PartOk, RenderPart, RenderParts;
    if s[0] == QUOTE {
      var t, closed;
      t, closed, u := SplitSingle(s[1..]);
      seg := Single(t, closed);
      Assoc(t, If(closed, QUOTE), u);
      assert s == [QUOTE] + (t + If(closed, QUOTE) + u);
    } else if s[0] == DQUOTE {
      var ps, closed;
      ps, closed, u := SplitDouble(s[1..]);
      seg := Double(ps, closed);
      Assoc(RenderParts(ps), If(closed, DQUOTE), u);
      assert s == [DQUOTE] + (RenderParts(ps) + If(closed, DQUOTE) + u);
    } else {
      PlainPart(s[0]);
      var p;
      p, u := SplitPart(s, false);
      seg := Open(p);
    }
  }

  lemma {:induction false} SplitSegs(s: Text) returns (ss: seq<Seg>, u: Text)
    ensures s == RenderSegs(ss) + u && SegsOk(ss, u) && (u == [] || u[0] in {SPACE, TAB, AMP})
    ensures s != [] && s[0] !in {SPACE, TAB, AMP} ==> ss != [] && |u| < |s|
    decreases |s|
  {
    hide SegOk, RenderSeg;
    if s == [] || s[0] in {SPACE, TAB, AMP} {
      ss, u := [], s;
    } else {
      var seg, rest := SplitSeg(s);
      ss, u := SplitSegs(rest);
      Assoc(RenderSeg(seg), RenderSegs(ss), u);
      assert ([seg] + ss)[1..] == ss;
      ss := [seg] + ss;
    }
  }

  lemma {:induction false} SplitItem(s: Text) returns (i: Item, u: Text)
    requires s != []
    ensures s == RenderItem(i) + u && |u| < |s| && ItemOk(i, u)
  {
    hide SegsOk, RenderSegs;
    if s[0] in {SPACE, TAB} {
      i, u := Gap(s[0]), s[1..];
    } else if s[0] == AMP {
      i, u := Amp, s[1..];
    } else {
      var ss, rest := SplitSegs(s);
      var amp := rest != [] && rest[0] == AMP;
      i, u := Word(ss, amp), if amp then rest[1..] else rest;
      assert If(amp, AMP) + u == rest;
      Assoc(RenderSegs(ss), If(amp, AMP), u);
    }
  }

  lemma {:induction false} Decompose(s: Text) returns (items: seq<Item>)
    ensures s == RenderAll(items) && ItemsOk(items)
    decreases |s|
  {
    hide ItemOk, RenderItem;
    if s == [] {
      items := [];
    } else {
      var i, rest := SplitItem(s);
      items := Decompose(rest);
      assert ([i] + items)[1..] == items;
      items := [i] + items;
    }
  }

  /** Which arguments a line stands for, for every line, argument array, buffer and environment. */
  lemma {:induction false} LineReads(s: Text, argvCap: nat, cap: nat, env: Env) returns (items: seq<Item>)
    ensures s == RenderAll(items) && ItemsOk(items)
    ensures Tokenize(s, START, argvCap, cap, env) == Meaning(items, START, argvCap, cap, env)
  {
    hide ItemsOk, RenderAll, Tokenize, Meaning;
    items := Decompose(s);
    ItemsRead(items, START, argvCap, cap, env);
  }
}
