/**
 The shell's tokenizer: quotes, variable expansion, background flag, with the token bytes collected in
 a caller's buffer and the tokens as slices of it.

 The functions below read the input from the front and say what is left of it and what has been
 collected; the methods work on cursors and arrays and are proved to do the same.
 */
module Tokenizer {

  import opened Bytes

  const SPACE := 32
  const TAB := 9
  const QUOTE := 39    // '
  const DQUOTE := 34   // "
  const AMP := 38      // &
  const DOLLAR := 36   // $

  type Text = seq<byte>

  datatype Variable = Variable(key: Text, val: Text)

  type Env = seq<Variable>

  predicate Blank(c: byte) {
    c == SPACE || c == TAB
  }

  /** The value of the first variable of that name, empty if there is none. */
  function Get(env: Env, key: Text): Text {
    if env == [] then [] else if env[0].key == key then env[0].val else Get(env[1..], key)
  }

  /** `i` is the first variable of that name. */
  predicate FirstOf(env: Env, key: Text, i: nat) {
    i < |env| && env[i].key == key && forall j :: 0 <= j < i ==> env[j].key != key
  }

  lemma {:induction false} GetFirst(env: Env, key: Text, i: nat)
    requires FirstOf(env, key, i)
    ensures Get(env, key) == env[i].val
    decreases i
  {
    if i > 0 {
      assert env[0].key != key;
      GetFirst(env[1..], key, i - 1);
    }
  }

  lemma {:induction false} GetNone(env: Env, key: Text)
    requires forall j :: 0 <= j < |env| ==> env[j].key != key
    ensures Get(env, key) == []
  {
    if env != [] { GetNone(env[1..], key); }
  }

  predicate IsIdent(c: byte) {
    65 <= c <= 90 || 97 <= c <= 122 || 48 <= c <= 57 || c == 95
  }

  // ----- the tokenizer as functions of the remaining input -----

  /** Collect bytes as far as the buffer of `cap` bytes allows. */
  function Emit(out: Text, cap: nat, s: Text): (r: Text)
    ensures |out| <= cap ==> |out| <= |r| <= cap && out <= r
    ensures |out| + |s| <= cap ==> r == out + s
  {
    if |out| <= cap then out + s[..Min(|s|, cap - |out|)] else out
  }

  function SkipBlanks(s: Text): (r: Text)
    ensures |r| <= |s| && (r != [] ==> !Blank(r[0]))
  {
    if s != [] && Blank(s[0]) then SkipBlanks(s[1..]) else s
  }

  /** What is left of the input, and what has been collected. */
  datatype Scan = Scan(rest: Text, out: Text)

  /** The inside of single quotes: everything up to the closing quote is literal. */
  function Quoted(s: Text, out: Text, cap: nat): (r: Scan)
    ensures |r.rest| <= |s| && (|out| <= cap ==> |out| <= |r.out| <= cap)
    decreases |s|
  {
    if s == [] then Scan(s, out)
    else if s[0] == QUOTE then Scan(s[1..], out)
    else Quoted(s[1..], Emit(out, cap, [s[0]]), cap)
  }

  function NameLength(s: Text): (n: nat)
    ensures n <= |s|
  {
    if s == [] || !IsIdent(s[0]) then 0 else 1 + NameLength(s[1..])
  }

  /** A dollar sign, a name, and in their place the variable's value. */
  function Expand(s: Text, out: Text, cap: nat, env: Env): (r: Scan)
    requires s != []
    ensures |r.rest| < |s| && (|out| <= cap ==> |out| <= |r.out| <= cap)
  {
    var n := NameLength(s[1..]);
    Scan(s[1 + n..], Emit(out, cap, Get(env, s[1..1 + n])))
  }

  /** The inside of double quotes: variables are expanded, everything else is literal. */
  function DoubleQuoted(s: Text, out: Text, cap: nat, env: Env): (r: Scan)
    ensures |r.rest| <= |s| && (|out| <= cap ==> |out| <= |r.out| <= cap)
    decreases |s|
  {
    if s == [] then Scan(s, out)
    else if s[0] == DQUOTE then Scan(s[1..], out)
    else if s[0] == DOLLAR then
      var e := Expand(s, out, cap, env);
      DoubleQuoted(e.rest, e.out, cap, env)
    else DoubleQuoted(s[1..], Emit(out, cap, [s[0]]), cap, env)
  }

  datatype Piece = Piece(rest: Text, out: Text, background: bool)

  /** One token: adjacent quoted and unquoted pieces, up to a blank, an ampersand or the end. */
  function Token(s: Text, out: Text, cap: nat, env: Env): (r: Piece)
    ensures |r.rest| <= |s| && (s != [] && !Blank(s[0]) ==> |r.rest| < |s|)
    ensures |out| <= cap ==> |out| <= |r.out| <= cap
    decreases |s|
  {
    if s == [] || Blank(s[0]) then Piece(s, out, false)
    else if s[0] == QUOTE then
      var q := Quoted(s[1..], out, cap); Token(q.rest, q.out, cap, env)
    else if s[0] == DQUOTE then
      var q := DoubleQuoted(s[1..], out, cap, env); Token(q.rest, q.out, cap, env)
    else if s[0] == AMP then Piece(s[1..], out, true)
    else if s[0] == DOLLAR then
      var e := Expand(s, out, cap, env); Token(e.rest, e.out, cap, env)
    else Token(s[1..], Emit(out, cap, [s[0]]), cap, env)
  }

  /** Tokens as slices of what has been collected. */
  datatype Result = Result(args: seq<(nat, nat)>, out: Text, background: bool)

  function Tokenize(s: Text, r: Result, argvCap: nat, cap: nat, env: Env): Result
    decreases |s|
  {
    if s == [] || |r.args| >= argvCap then r else
    var s1 := SkipBlanks(s);
    if s1 == [] then r
    else if s1[0] == AMP then Tokenize(s1[1..], r.(background := true), argvCap, cap, env)
    else
      var p := Token(s1, r.out, cap, env);
      Tokenize(p.rest, Next(r, p), argvCap, cap, env)
  }

  /** Record a token unless it is empty. */
  function Next(r: Result, p: Piece): Result {
    Result(if |p.out| > |r.out| then r.args + [(|r.out|, |p.out|)] else r.args, p.out, r.background || p.background)
  }

  const START := Result([], [], false)

  // ----- the slices -----

  /** The slices follow each other without gap or overlap, and cover what has been collected. */
  ghost predicate Tiled(args: seq<(nat, nat)>, n: nat) {
    (forall i :: 0 <= i < |args| ==> args[i].0 < args[i].1 <= n)
    && (forall i, j :: 0 <= i < j < |args| && j == i + 1 ==> args[i].1 == args[j].0)
    && (if args == [] then n == 0 else args[0].0 == 0 && args[|args| - 1].1 == n)
  }

  /** On every input the tokens tile the collected bytes, of which there are at most `cap`, and there
      are at most `argvCap` of them. */
  lemma {:induction false} TokensTile(s: Text, r: Result, argvCap: nat, cap: nat, env: Env)
    requires Tiled(r.args, |r.out|) && |r.out| <= cap && |r.args| <= argvCap
    ensures var t := Tokenize(s, r, argvCap, cap, env);
            Tiled(t.args, |t.out|) && |t.out| <= cap && |t.args| <= argvCap
    decreases |s|
  {
    hide Token;
    if s != [] && |r.args| < argvCap {
      var s1 := SkipBlanks(s);
      if s1 != [] {
        if s1[0] == AMP {
          TokensTile(s1[1..], r.(background := true), argvCap, cap, env);
        } else {
          var p := Token(s1, r.out, cap, env);
          TokensTile(p.rest, Next(r, p), argvCap, cap, env);
        }
      }
    }
  }

  // ----- quoting undone -----

  /** A single quote cannot stand between single quotes: close them, put it in double quotes, and
      open them again. */
  function Escaped(t: Text): Text {
    if t == [] then []
    else (if t[0] == QUOTE then [QUOTE, DQUOTE, QUOTE, DQUOTE, QUOTE] else [t[0]]) + Escaped(t[1..])
  }

  function QuoteOne(t: Text): Text {
    [QUOTE] + Escaped(t) + [QUOTE]
  }

  /** The words quoted, one space between them. */
  function QuoteAll(words: seq<Text>): Text {
    if words == [] then []
    else if |words| == 1 then QuoteOne(words[0])
    else QuoteOne(words[0]) + [SPACE] + QuoteAll(words[1..])
  }

  function Concat(words: seq<Text>): Text {
    if words == [] then [] else words[0] + Concat(words[1..])
  }

  function NonEmpty(words: seq<Text>): (r: seq<Text>)
    ensures |r| <= |words|
  {
    if words == [] then [] else (if words[0] == [] then [] else [words[0]]) + NonEmpty(words[1..])
  }

  /** Where a word ends up, if it leaves a token at all. */
  function Place(t: Text, at: nat): seq<(nat, nat)> {
    if t == [] then [] else [(at, at + |t|)]
  }

  /** Where the words end up, collected from offset `at` on. */
  function Places(words: seq<Text>, at: nat): seq<(nat, nat)> {
    if words == [] then [] else Place(words[0], at) + Places(words[1..], at + |words[0]|)
  }

  lemma {:induction false} QuotedStep(c: byte, s: Text, out: Text, cap: nat)
    requires c != QUOTE && |out| < cap
    ensures Quoted([c] + s, out, cap) == Quoted(s, out + [c], cap)
  {
    assert ([c] + s)[1..] == s;
  }

  lemma {:induction false} QuotedEnd(u: Text, out: Text, cap: nat)
    ensures Quoted([QUOTE] + u, out, cap) == Scan(u, out)
  {
    assert ([QUOTE] + u)[1..] == u;
  }

  /** Reading on after an opening single quote, and after the closing one as further pieces of the token. */
  function Inside(s: Text, out: Text, cap: nat, env: Env): Piece {
    var q := Quoted(s, out, cap);
    Token(q.rest, q.out, cap, env)
  }

  lemma {:induction false} TokenQuote(s: Text, out: Text, cap: nat, env: Env)
    ensures Token([QUOTE] + s, out, cap, env) == Inside(s, out, cap, env)
  {
    assert ([QUOTE] + s)[1..] == s;
  }

  /** The escape of a single quote adds it to the token and goes on between single quotes. */
  lemma {:induction false} EscapeInverts(s: Text, out: Text, cap: nat, env: Env)
    requires |out| < cap
    ensures Inside([QUOTE, DQUOTE, QUOTE, DQUOTE, QUOTE] + s, out, cap, env) == Inside(s, out + [QUOTE], cap, env)
  {
    hide Quoted, Inside;
    var v := [DQUOTE, QUOTE, DQUOTE, QUOTE] + s;
    assert [QUOTE, DQUOTE, QUOTE, DQUOTE, QUOTE] + s == [QUOTE] + v;
    InsideEnd(v, out, cap, env);
    assert v[1..] == [QUOTE, DQUOTE] + ([QUOTE] + s);
    DoubleQuotedQuote([QUOTE] + s, out, cap, env);
    TokenQuote(s, out + [QUOTE], cap, env);
  }

  lemma {:induction false} InsideEnd(u: Text, out: Text, cap: nat, env: Env)
    ensures Inside([QUOTE] + u, out, cap, env) == Token(u, out, cap, env)
  {
    QuotedEnd(u, out, cap);
  }

  lemma {:induction false} DoubleQuotedQuote(u: Text, out: Text, cap: nat, env: Env)
    requires |out| < cap
    ensures DoubleQuoted([QUOTE, DQUOTE] + u, out, cap, env) == Scan(u, out + [QUOTE])
  {
    var s := [QUOTE, DQUOTE] + u;
    assert s[1..] == [DQUOTE] + u && s[1..][1..] == u;
  }

  lemma {:induction false} EscapedInverts(t: Text, u: Text, out: Text, cap: nat, env: Env)
    requires |out| + |t| <= cap
    ensures Inside(Escaped(t) + ([QUOTE] + u), out, cap, env) == Token(u, out + t, cap, env)
    decreases t
  {
    hide Inside, Token;
    if t == [] {
      InsideEnd(u, out, cap, env);
      assert Escaped(t) + ([QUOTE] + u) == [QUOTE] + u && out + t == out;
    } else {
      var v := t[1..];
      var s := Escaped(v) + ([QUOTE] + u);
      EscapedInverts(v, u, out + [t[0]], cap, env);
      assert out + [t[0]] + v == out + t;
      if t[0] == QUOTE {
        EscapeInverts(s, out, cap, env);
        assert Escaped(t) + ([QUOTE] + u) == [QUOTE, DQUOTE, QUOTE, DQUOTE, QUOTE] + s;
      } else {
        assert Escaped(t) + ([QUOTE] + u) == [t[0]] + s;
        InsideStep(t[0], s, out, cap, env);
      }
    }
  }

  lemma {:induction false} InsideStep(c: byte, s: Text, out: Text, cap: nat, env: Env)
    requires c != QUOTE && |out| < cap
    ensures Inside([c] + s, out, cap, env) == Inside(s, out + [c], cap, env)
  {
    QuotedStep(c, s, out, cap);
  }

  /** A quoted word is read back whole, whatever bytes it is made of. */
  lemma {:induction false} TokenInverts(t: Text, u: Text, out: Text, cap: nat, env: Env)
    requires |out| + |t| <= cap && (u == [] || Blank(u[0]))
    ensures Token(QuoteOne(t) + u, out, cap, env) == Piece(u, out + t, false)
  {
    hide Inside, Escaped;
    var s := Escaped(t) + ([QUOTE] + u);
    assert QuoteOne(t) + u == [QUOTE] + s;
    TokenQuote(s, out, cap, env);
    EscapedInverts(t, u, out, cap, env);
  }

  lemma {:induction false} TokenizeWord(t: Text, u: Text, r: Result, argvCap: nat, cap: nat, env: Env)
    requires |r.out| + |t| <= cap && (u == [] || Blank(u[0])) && |r.args| < argvCap
    ensures Tokenize(QuoteOne(t) + u, r, argvCap, cap, env)
         == Tokenize(u, Result(r.args + Place(t, |r.out|), r.out + t, r.background), argvCap, cap, env)
  {
    hide Token, Escaped;
    var s := QuoteOne(t) + u;
    TokenInverts(t, u, r.out, cap, env);
    assert SkipBlanks(s) == s;
    assert r.args + [] == r.args;
  }

  lemma {:induction false} TokenizeBlank(u: Text, r: Result, argvCap: nat, cap: nat, env: Env)
    requires |r.args| < argvCap && u != [] && !Blank(u[0])
    ensures Tokenize([SPACE] + u, r, argvCap, cap, env) == Tokenize(u, r, argvCap, cap, env)
  {
    assert ([SPACE] + u)[1..] == u;
    assert SkipBlanks([SPACE] + u) == SkipBlanks(u) == u;
  }

  /** The quoted form of the words after the first, with the space in front of them. */
  function Tail(words: seq<Text>): (r: Text)
    ensures r == [] || Blank(r[0])
  {
    if words == [] then [] else [SPACE] + QuoteAll(words)
  }

  lemma {:induction false} QuoteAllSplit(words: seq<Text>)
    requires words != []
    ensures QuoteAll(words) == QuoteOne(words[0]) + Tail(words[1..])
  {
  }

  lemma {:induction false} TokenizeTail(words: seq<Text>, u: Text, r: Result, argvCap: nat, cap: nat, env: Env)
    ensures Tokenize(Tail(words) + u, r, argvCap, cap, env) == Tokenize(QuoteAll(words) + u, r, argvCap, cap, env)
  {
    hide Tokenize, Escaped;
    if |r.args| >= argvCap {
      TokenizeFull(Tail(words) + u, r, argvCap, cap, env);
      TokenizeFull(QuoteAll(words) + u, r, argvCap, cap, env);
    } else if words != [] {
      QuoteAllSplit(words);
      var s := QuoteAll(words) + u;
      assert s[0] == QUOTE;
      assert Tail(words) + u == [SPACE] + s;
      TokenizeBlank(s, r, argvCap, cap, env);
    }
  }

  /** With the argument array full nothing is read any more. */
  lemma {:induction false} TokenizeFull(s: Text, r: Result, argvCap: nat, cap: nat, env: Env)
    requires |r.args| >= argvCap
    ensures Tokenize(s, r, argvCap, cap, env) == r
  {
  }

  lemma {:induction false} EmptyWords(words: seq<Text>, at: nat)
    requires NonEmpty(words) == []
    ensures Concat(words) == [] && Places(words, at) == []
    decreases words
  {
    if words != [] { EmptyWords(words[1..], at); }
  }

  /** Reading quoted words one after the other, up to what follows them. */
  lemma {:induction false} TokenizeQuoted(words: seq<Text>, u: Text, r: Result, argvCap: nat, cap: nat, env: Env)
    requires |r.args| + |NonEmpty(words)| <= argvCap && |r.out| + |Concat(words)| <= cap && (u == [] || Blank(u[0]))
    ensures Tokenize(QuoteAll(words) + u, r, argvCap, cap, env)
         == Tokenize(u, Result(r.args + Places(words, |r.out|), r.out + Concat(words), r.background), argvCap, cap, env)
    decreases words
  {
    hide Tokenize, QuoteAll, QuoteOne, Tail, Places, Concat, NonEmpty;
    if words == [] {
      NoWords(u, r);
    } else if |r.args| >= argvCap {
      EmptyWords(words, |r.out|);
      TokenizeFull(QuoteAll(words) + u, r, argvCap, cap, env);
      assert Result(r.args + [], r.out + [], r.background) == r;
      TokenizeFull(u, r, argvCap, cap, env);
    } else {
      var t, rest := words[0], words[1..];
      var r' := Result(r.args + Place(t, |r.out|), r.out + t, r.background);
      FirstWord(words, r.args, r.out);
      QuoteAllSplit(words);
      Assoc(QuoteOne(t), Tail(rest), u);
      TokenizeWord(t, Tail(rest) + u, r, argvCap, cap, env);
      TokenizeTail(rest, u, r', argvCap, cap, env);
      TokenizeQuoted(rest, u, r', argvCap, cap, env);
    }
  }

  lemma {:induction false} NoWords(u: Text, r: Result)
    ensures QuoteAll([]) + u == u
    ensures r.args + Places([], |r.out|) == r.args && r.out + Concat([]) == r.out
  {
  }

  lemma {:induction false} FirstWord(words: seq<Text>, args: seq<(nat, nat)>, out: Text)
    requires words != []
    ensures |NonEmpty(words)| == |Place(words[0], |out|)| + |NonEmpty(words[1..])|
    ensures |Concat(words)| == |words[0]| + |Concat(words[1..])|
    ensures args + Places(words, |out|) == args + Place(words[0], |out|) + Places(words[1..], |out + words[0]|)
    ensures out + Concat(words) == out + words[0] + Concat(words[1..])
  {
    Assoc(args, Place(words[0], |out|), Places(words[1..], |out| + |words[0]|));
    Assoc(out, words[0], Concat(words[1..]));
  }

  lemma {:induction false} PlacesLength(words: seq<Text>, at: nat)
    ensures |Places(words, at)| == |NonEmpty(words)|
  {
    if words != [] { PlacesLength(words[1..], at + |words[0]|); }
  }

  lemma {:induction false} PlacesRead(words: seq<Text>, pre: Text, i: nat)
    requires i < |NonEmpty(words)|
    ensures |Places(words, |pre|)| == |NonEmpty(words)|
    ensures var (a, b) := Places(words, |pre|)[i];
            a <= b <= |pre + Concat(words)| && (pre + Concat(words))[a..b] == NonEmpty(words)[i]
    decreases words
  {
    PlacesLength(words, |pre|);
    var t := words[0];
    var k := |Place(t, |pre|)|;
    assert pre + Concat(words) == (pre + t) + Concat(words[1..]);
    if i < k {
      assert (pre + Concat(words))[|pre|..|pre| + |t|] == t;
    } else {
      PlacesRead(words[1..], pre + t, i - k);
    }
  }

  /** The tokens are these words. */
  ghost predicate Reads(r: Result, words: seq<Text>) {
    |r.args| == |words|
    && forall i :: 0 <= i < |words| ==>
         r.args[i].0 <= r.args[i].1 <= |r.out| && r.out[r.args[i].0..r.args[i].1] == words[i]
  }

  lemma {:induction false} PlacesReadAll(words: seq<Text>, background: bool)
    ensures Reads(Result([] + Places(words, 0), [] + Concat(words), background), NonEmpty(words))
  {
    hide Places, Concat, NonEmpty;
    PlacesLength(words, 0);
    var r := Result([] + Places(words, 0), [] + Concat(words), background);
    assert r.args == Places(words, 0);
    forall i | 0 <= i < |NonEmpty(words)|
      ensures r.args[i].0 <= r.args[i].1 <= |r.out| && r.out[r.args[i].0..r.args[i].1] == NonEmpty(words)[i]
    {
      PlacesRead(words, [], i);
    }
  }

  /** Quoting undone: for every list of words whose non-empty ones fit, tokenizing its quoted form gives exactly the
      non-empty ones, whatever bytes they are made of, and in the foreground. */
  lemma {:induction false} QuotingRoundTrips(words: seq<Text>, argvCap: nat, cap: nat, env: Env)
    requires |NonEmpty(words)| <= argvCap && |Concat(words)| <= cap
    ensures var r := Tokenize(QuoteAll(words), START, argvCap, cap, env);
            !r.background && Reads(r, NonEmpty(words))
  {
    hide QuoteAll, Places, Concat, NonEmpty;
    TokenizeQuoted(words, [], START, argvCap, cap, env);
    assert QuoteAll(words) + [] == QuoteAll(words);
    PlacesReadAll(words, false);
  }

  /** An ampersand after the words sends the command to the background unless the words fill the
      argument array: then it is never looked at. The words are the same either way. */
  lemma {:induction false} AmpersandSeen(words: seq<Text>, argvCap: nat, cap: nat, env: Env)
    requires |NonEmpty(words)| <= argvCap && |Concat(words)| <= cap
    ensures var r := Tokenize(QuoteAll(words) + [SPACE, AMP], START, argvCap, cap, env);
            (r.background <==> |NonEmpty(words)| < argvCap) && Reads(r, NonEmpty(words))
  {
    hide QuoteAll, Places, Concat, NonEmpty;
    TokenizeQuoted(words, [SPACE, AMP], START, argvCap, cap, env);
    PlacesLength(words, 0);
    PlacesReadAll(words, false);
    PlacesReadAll(words, true);
    LoneAmpersand(Result([] + Places(words, 0), [] + Concat(words), false), argvCap, cap, env);
  }

  lemma {:induction false} LoneAmpersand(r: Result, argvCap: nat, cap: nat, env: Env)
    ensures Tokenize([SPACE, AMP], r, argvCap, cap, env) == if |r.args| < argvCap then r.(background := true) else r
  {
    if |r.args| < argvCap {
      assert [SPACE, AMP] == [SPACE] + [AMP];
      TokenizeBlank([AMP], r, argvCap, cap, env);
      assert SkipBlanks([AMP]) == [AMP];
    }
  }

  // ----- variables -----

  ghost predicate IsName(name: Text) {
    forall i :: 0 <= i < |name| ==> IsIdent(name[i])
  }

  lemma {:induction false} NameEnds(name: Text, u: Text)
    requires IsName(name) && (u == [] || !IsIdent(u[0]))
    ensures NameLength(name + u) == |name|
  {
    if name == [] {
      assert name + u == u;
    } else {
      assert (name + u)[1..] == name[1..] + u;
      NameEnds(name[1..], u);
    }
  }

  lemma {:induction false} ExpandName(name: Text, u: Text, cap: nat, env: Env)
    requires IsName(name) && (u == [] || !IsIdent(u[0])) && |Get(env, name)| <= cap
    ensures Expand([DOLLAR] + name + u, [], cap, env) == Scan(u, Get(env, name))
  {
    hide NameLength, Get;
    var s := [DOLLAR] + name + u;
    assert s[1..] == name + u;
    NameEnds(name, u);
    assert s[1..1 + |name|] == name && s[1 + |name|..] == u;
    assert [] + Get(env, name) == Get(env, name);
  }

  /** A variable's value becomes one token, whatever blanks, quotes or ampersands are in it, and
      between double quotes just as outside of them; an empty one leaves none. */
  lemma {:induction false} ValueIsOneToken(name: Text, argvCap: nat, cap: nat, env: Env)
    requires IsName(name) && |Get(env, name)| <= cap && argvCap > 0
    ensures var v := Get(env, name);
            Tokenize([DOLLAR] + name, START, argvCap, cap, env) == Result(Place(v, 0), v, false)
            && Tokenize([DQUOTE, DOLLAR] + name + [DQUOTE], START, argvCap, cap, env) == Result(Place(v, 0), v, false)
  {
    hide Expand, Get;
    var v := Get(env, name);
    TokenOfName(name, cap, env);
    TokenizeOne([DOLLAR] + name, v, argvCap, cap, env);
    TokenizeOne([DQUOTE, DOLLAR] + name + [DQUOTE], v, argvCap, cap, env);
  }

  lemma {:induction false} TokenizeOne(s: Text, v: Text, argvCap: nat, cap: nat, env: Env)
    requires s != [] && !Blank(s[0]) && s[0] != AMP && argvCap > 0
    requires Token(s, [], cap, env) == Piece([], v, false)
    ensures Tokenize(s, START, argvCap, cap, env) == Result(Place(v, 0), v, false)
  {
    hide Token;
    assert SkipBlanks(s) == s;
  }

  lemma {:induction false} TokenOfName(name: Text, cap: nat, env: Env)
    requires IsName(name) && |Get(env, name)| <= cap
    ensures Token([DOLLAR] + name, [], cap, env) == Piece([], Get(env, name), false)
    ensures Token([DQUOTE, DOLLAR] + name + [DQUOTE], [], cap, env) == Piece([], Get(env, name), false)
  {
    hide Expand, Get;
    ExpandName(name, [], cap, env);
    assert [DOLLAR] + name + [] == [DOLLAR] + name;
    ExpandName(name, [DQUOTE], cap, env);
    var s := [DQUOTE, DOLLAR] + name + [DQUOTE];
    assert s[1..] == [DOLLAR] + name + [DQUOTE];
    assert DoubleQuoted([DQUOTE], Get(env, name), cap, env) == Scan([], Get(env, name));
  }

  // ----- the tokenizer as written -----

  /** The cursors stand where `scan` says, with its bytes in the buffer. */
  ghost predicate At(input: Text, pos: nat, storage: array<byte>, spos: nat, rest: Text, out: Text)
    reads storage
  {
    pos <= |input| && spos <= storage.Length && input[pos..] == rest && storage[..spos] == out
  }

  method PutByte(storage: array<byte>, spos0: nat, c: byte) returns (spos: nat)
    requires spos0 <= storage.Length
    modifies storage
    ensures spos <= storage.Length && storage[..spos] == Emit(old(storage[..spos0]), storage.Length, [c])
  {
    spos := spos0;
    if spos < storage.Length {
      storage[spos] := c;
      spos := spos + 1;
    }
  }

  method QuoteLoop(input: Text, pos0: nat, storage: array<byte>, spos0: nat) returns (pos: nat, spos: nat)
    requires pos0 <= |input| && spos0 <= storage.Length
    modifies storage
    ensures var q := Quoted(input[pos0..], old(storage[..spos0]), storage.Length);
            At(input, pos, storage, spos, q.rest, q.out)
    ensures pos0 <= pos
  {
    hide Emit;
    pos, spos := pos0, spos0;
    ghost var goal := Quoted(input[pos0..], storage[..spos0], storage.Length);
    while pos < |input| && input[pos] != QUOTE
      invariant pos0 <= pos <= |input| && spos <= storage.Length
      invariant Quoted(input[pos..], storage[..spos], storage.Length) == goal
    {
      assert input[pos..][1..] == input[pos + 1..];
      spos := PutByte(storage, spos, input[pos]);
      pos := pos + 1;
    }
    if pos < |input| {
      assert input[pos..][1..] == input[pos + 1..];
      pos := pos + 1;
    }
  }

  /** The value of the first variable of that name, if there is one. */
  method FindVariable(env: Env, key: Text) returns (r: Option<Text>)
    ensures match r
            case Some(val) => val == Get(env, key) && exists i: nat :: FirstOf(env, key, i) && val == env[i].val
            case None => Get(env, key) == [] && forall j :: 0 <= j < |env| ==> env[j].key != key
  {
    for i := 0 to |env|
      invariant forall j :: 0 <= j < i ==> env[j].key != key
    {
      if env[i].key == key {
        assert FirstOf(env, key, i);
        GetFirst(env, key, i);
        return Some(env[i].val);
      }
    }
    GetNone(env, key);
    return None;
  }

  method ExpandAt(input: Text, pos0: nat, storage: array<byte>, spos0: nat, env: Env) returns (pos: nat, spos: nat)
    requires pos0 < |input| && spos0 <= storage.Length
    modifies storage
    ensures var e := Expand(input[pos0..], old(storage[..spos0]), storage.Length, env);
            At(input, pos, storage, spos, e.rest, e.out)
    ensures pos0 < pos
  {
    hide Get, Emit, NameLength;
    ghost var s := input[pos0..];
    assert s[1..] == input[pos0 + 1..];
    pos := NameEnd(input, pos0 + 1);
    ghost var n := pos - pos0 - 1;
    assert s[1..1 + n] == input[pos0 + 1..pos] && s[1 + n..] == input[pos..];
    var value := FindVariable(env, input[pos0 + 1..pos]);
    spos := CopyInto(storage, spos0, if value.Some? then value.value else []);
  }

  method NameEnd(input: Text, start: nat) returns (pos: nat)
    requires start <= |input|
    ensures pos <= |input| && pos == start + NameLength(input[start..])
  {
    pos := start;
    while pos < |input| && IsIdent(input[pos])
      invariant start <= pos <= |input| && NameLength(input[start..]) == pos - start + NameLength(input[pos..])
    {
      assert input[pos..][1..] == input[pos + 1..];
      pos := pos + 1;
    }
  }

  method CopyInto(storage: array<byte>, spos0: nat, val: Text) returns (spos: nat)
    requires spos0 <= storage.Length
    modifies storage
    ensures spos <= storage.Length && storage[..spos] == Emit(old(storage[..spos0]), storage.Length, val)
  {
    var copyLen := Min(|val|, storage.Length - spos0);
    forall i | 0 <= i < copyLen { storage[spos0 + i] := val[i]; }
    spos := spos0 + copyLen;
    assert storage[..spos] == old(storage[..spos0]) + val[..copyLen];
  }

  method DoubleQuoteLoop(input: Text, pos0: nat, storage: array<byte>, spos0: nat, env: Env) returns (pos: nat, spos: nat)
    requires pos0 <= |input| && spos0 <= storage.Length
    modifies storage
    ensures var q := DoubleQuoted(input[pos0..], old(storage[..spos0]), storage.Length, env);
            At(input, pos, storage, spos, q.rest, q.out)
    ensures pos0 <= pos
  {
    hide Expand, Emit;
    pos, spos := pos0, spos0;
    ghost var goal := DoubleQuoted(input[pos0..], storage[..spos0], storage.Length, env);
    while pos < |input| && input[pos] != DQUOTE
      invariant pos0 <= pos <= |input| && spos <= storage.Length
      invariant DoubleQuoted(input[pos..], storage[..spos], storage.Length, env) == goal
      decreases |input| - pos
    {
      if input[pos] == DOLLAR {
        pos, spos := ExpandAt(input, pos, storage, spos, env);
      } else {
        assert input[pos..][1..] == input[pos + 1..];
        spos := PutByte(storage, spos, input[pos]);
        pos := pos + 1;
      }
    }
    if pos < |input| {
      assert input[pos..][1..] == input[pos + 1..];
      pos := pos + 1;
    }
  }

  /** One piece of a token, read at a cursor. */
  lemma {:induction false} TokenAt(input: Text, pos: nat, out: Text, cap: nat, env: Env)
    requires pos < |input|
    ensures var c, s, rest := input[pos], input[pos..], input[pos + 1..];
            Token(s, out, cap, env)
            == if Blank(c) then Piece(s, out, false)
               else if c == QUOTE then var q := Quoted(rest, out, cap); Token(q.rest, q.out, cap, env)
               else if c == DQUOTE then var q := DoubleQuoted(rest, out, cap, env); Token(q.rest, q.out, cap, env)
               else if c == AMP then Piece(rest, out, true)
               else if c == DOLLAR then var e := Expand(s, out, cap, env); Token(e.rest, e.out, cap, env)
               else Token(rest, Emit(out, cap, [c]), cap, env)
  {
    hide Expand, Emit, Quoted, DoubleQuoted;
    assert input[pos..][1..] == input[pos + 1..];
  }

  method TokenLoop(input: Text, pos0: nat, storage: array<byte>, spos0: nat, env: Env)
      returns (pos: nat, spos: nat, background: bool)
    requires pos0 <= |input| && spos0 <= storage.Length
    modifies storage
    ensures var p := Token(input[pos0..], old(storage[..spos0]), storage.Length, env);
            At(input, pos, storage, spos, p.rest, p.out) && background == p.background
  {
    hide Expand, Emit, Quoted, DoubleQuoted, Token;
    pos, spos, background := pos0, spos0, false;
    ghost var goal := Token(input[pos0..], storage[..spos0], storage.Length, env);
    while pos < |input|
      invariant pos <= |input| && spos <= storage.Length && !background
      invariant Token(input[pos..], storage[..spos], storage.Length, env) == goal
      decreases |input| - pos
    {
      var c := input[pos];
      TokenAt(input, pos, storage[..spos], storage.Length, env);
      if Blank(c) { return; }
      if c == QUOTE {
        pos, spos := QuoteLoop(input, pos + 1, storage, spos);
      } else if c == DQUOTE {
        pos, spos := DoubleQuoteLoop(input, pos + 1, storage, spos, env);
      } else if c == AMP {
        background := true;
        pos := pos + 1;
        return;
      } else if c == DOLLAR {
        pos, spos := ExpandAt(input, pos, storage, spos, env);
      } else {
        spos := PutByte(storage, spos, c);
        pos := pos + 1;
      }
    }
    TokenAtEnd(storage[..spos], storage.Length, env);
  }

  lemma {:induction false} TokenAtEnd(out: Text, cap: nat, env: Env)
    ensures Token([], out, cap, env) == Piece([], out, false)
  {
  }

  /** Split `input` into at most `argv.Length` tokens, as slices of `storage`. */
  method TokenizeInto(input: Text, argv: array<(nat, nat)>, storage: array<byte>, env: Env)
      returns (argc: nat, background: bool, ghost used: nat)
    modifies argv, storage
    ensures argc <= argv.Length && used <= storage.Length
    ensures Result(argv[..argc], storage[..used], background)
         == Tokenize(input, START, argv.Length, storage.Length, env)
    ensures Tiled(argv[..argc], used)
  {
    hide Token, SkipBlanks, Tiled;
    argc, background := 0, false;
    var spos, pos := 0, 0;
    ghost var goal := Tokenize(input, START, argv.Length, storage.Length, env);
    StartTiled();
    TokensTile(input, START, argv.Length, storage.Length, env);
    assert input[0..] == input;
    assert Result(argv[..0], storage[..0], false) == START;
    while pos < |input| && argc < argv.Length
      invariant 0 <= pos <= |input| && argc <= argv.Length && 0 <= spos <= storage.Length
      invariant Tokenize(input[pos..], Result(argv[..argc], storage[..spos], background), argv.Length, storage.Length, env) == goal
      decreases |input| - pos
    {
      ghost var s, r := input[pos..], Result(argv[..argc], storage[..spos], background);
      pos := BlankLoop(input, pos);
      if pos >= |input| { break; }
      if input[pos] == AMP {
        assert input[pos..][1..] == input[pos + 1..];
        background := true;
        pos := pos + 1;
        continue;
      }
      var tokStart := spos;
      var bg;
      pos, spos, bg := TokenLoop(input, pos, storage, spos, env);
      if bg { background := true; }
      if spos > tokStart {
        ghost var before := argv[..argc];
        argv[argc] := (tokStart, spos);
        argc := argc + 1;
        assert argv[..argc] == before + [(tokStart, spos)];
      }
    }
    used := spos;
  }

  lemma {:induction false} StartTiled()
    ensures Tiled(START.args, |START.out|)
  {
  }

  method BlankLoop(input: Text, pos0: nat) returns (pos: nat)
    requires pos0 <= |input|
    ensures pos0 <= pos <= |input| && input[pos..] == SkipBlanks(input[pos0..])
  {
    pos := pos0;
    while pos < |input| && Blank(input[pos])
      invariant pos0 <= pos <= |input| && SkipBlanks(input[pos..]) == SkipBlanks(input[pos0..])
    {
      assert input[pos..][1..] == input[pos + 1..];
      pos := pos + 1;
    }
  }
}
