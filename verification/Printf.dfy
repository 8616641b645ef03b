/**
 The output side of the formatter: a writer that counts past the end of its buffer, and number and
 string fields. The reference is the unbounded text (`FmtUint`, `FmtStr`); what the bounded writer
 leaves in the caller's buffer is a prefix of it.
 */
module Printf {

  import opened Arithmetic
  import opened Bytes

  const SPACE := 32
  const MINUS := 45
  const DOT := 46
  const ZERO := 48
  const PERCENT := 37
  const STAR := 42

  // ----- number fields -----

  /** A digit character. */
  function Digit(d: nat, upper: bool): byte
    requires d < 36
  {
    if d < 10 then ZERO + d else (if upper then 65 else 97) + d - 10
  }

  /** The digits of `v`, least significant first. */
  function Digits(v: nat, base: nat, upper: bool): seq<byte>
    requires 2 <= base <= 36
  {
    if v == 0 then [] else [Digit(Rem(v, base), upper)] + Digits(Quot(v, base), base, upper)
  }

  function Reverse(s: seq<byte>): (r: seq<byte>)
    ensures |r| == |s|
  {
    if s == [] then [] else Reverse(s[1..]) + [s[0]]
  }

  /** The digits that are printed, least significant first: none for a zero with precision 0, and
      at least as many as the precision asks for. */
  function DigitField(v: nat, base: nat, upper: bool, prec: Option<nat>): seq<byte>
    requires 2 <= base <= 36
  {
    var ds := if v == 0 && prec != Some(0) then [ZERO] else Digits(v, base, upper);
    ds + Repeat(ZERO, Pad(if prec.Some? then prec.value else 0, |ds|))
  }

  /** Sign and padding in front of the digits: zeros go between sign and digits, spaces before the sign. */
  function Prefix(negative: bool, pad: nat, zeros: bool, left: bool): seq<byte> {
    var sign: seq<byte> := if negative then [MINUS] else [];
    if left then sign else if zeros then sign + Repeat(ZERO, pad) else Repeat(SPACE, pad) + sign
  }

  /** How much a field of `n` bytes is short of `width`. */
  function Pad(width: nat, n: nat): nat {
    if width > n then width - n else 0
  }

  /** The text of an integer conversion. */
  function FmtUint(v: nat, base: nat, upper: bool, negative: bool, width: nat, prec: Option<nat>, zeroPad: bool, left: bool): seq<byte>
    requires 2 <= base <= 36
  {
    var body := Reverse(DigitField(v, base, upper, prec));
    var pad := Pad(width, |body| + (if negative then 1 else 0));
    Prefix(negative, pad, zeroPad && prec == None, left) + body + Repeat(SPACE, if left then pad else 0)
  }

  /** The parts of the text, one after the other behind `start`. */
  lemma {:induction false} FmtUintParts(start: seq<byte>, v: nat, base: nat, upper: bool, negative: bool, width: nat,
                                        prec: Option<nat>, zeroPad: bool, left: bool, pad: nat)
    requires 2 <= base <= 36 && pad == Pad(width, |DigitField(v, base, upper, prec)| + (if negative then 1 else 0))
    ensures var head := start + Prefix(negative, pad, zeroPad && prec == None, left) + Reverse(DigitField(v, base, upper, prec));
            start + FmtUint(v, base, upper, negative, width, prec, zeroPad, left)
            == if left then head + Repeat(SPACE, pad) else head
  {
    hide DigitField, Reverse, Prefix;
    var pre, body := Prefix(negative, pad, zeroPad && prec == None, left), Reverse(DigitField(v, base, upper, prec));
    Assoc(start, pre + body, Repeat(SPACE, if left then pad else 0));
    Assoc(start, pre, body);
    if !left { assert start + pre + body + Repeat(SPACE, 0) == start + pre + body; }
  }

  function FmtStr(s: seq<byte>, width: nat, left: bool): seq<byte> {
    var pad := Repeat(SPACE, Pad(width, |s|));
    if left then s + pad else pad + s
  }

  // ----- the bounded writer -----

  class Writer {
    const buf: array<byte>
    const cap: nat           // usable bytes; buf[cap] is the slot of the NUL
    var len: nat             // bytes formatted so far, possibly more than cap
    ghost var full: seq<byte>  // those bytes
    ghost const before: seq<byte>  // what the buffer held at first

    ghost predicate Valid()
      reads this, buf
    {
      cap <= buf.Length && len == |full| && |before| == buf.Length
      && buf[..] == full[..Min(len, cap)] + before[Min(len, cap)..]
    }

    constructor (b: array<byte>, n: nat)
      requires n <= b.Length
      ensures Valid() && buf == b && cap == n && full == [] && before == b[..]
    {
      buf, cap, len, full, before := b, n, 0, [], b[..];
    }

    method PutByte(c: byte)
      requires Valid()
      modifies this, buf
      ensures Valid() && full == old(full) + [c]
    {
      if len < cap { buf[len] := c; }
      len := len + 1;
      full := full + [c];
    }

    method PutStr(s: seq<byte>)
      requires Valid()
      modifies this, buf
      ensures Valid() && full == old(full) + s
    {
      for i := 0 to |s|
        invariant Valid() && full == old(full) + s[..i]
      {
        PutByte(s[i]);
        assert s[..i] + [s[i]] == s[..i + 1];
      }
      assert s[..|s|] == s;
    }

    /** The padding loops. */
    method PutRepeat(c: byte, n: nat)
      requires Valid()
      modifies this, buf
      ensures Valid() && full == old(full) + Repeat(c, n)
    {
      for i := 0 to n
        invariant Valid() && full == old(full) + Repeat(c, i)
      {
        PutByte(c);
        assert Repeat(c, i) + [c] == Repeat(c, i + 1);
      }
    }

    method PutField(s: seq<byte>, width: nat, left: bool)
      requires Valid()
      modifies this, buf
      ensures Valid() && full == old(full) + FmtStr(s, width, left)
    {
      if !left { PutRepeat(SPACE, Pad(width, |s|)); }
      PutStr(s);
      if left { PutRepeat(SPACE, Pad(width, |s|)); }
    }

    /** Emit tmp[..n] backwards. */
    method PutReversed(tmp: array<byte>, n: nat)
      requires Valid() && n <= tmp.Length && tmp != buf
      modifies this, buf
      ensures Valid() && full == old(full) + Reverse(tmp[..n])
    {
      var k := n;
      ghost var digits := tmp[..n];
      assert digits[..n] == digits;
      while k > 0
        invariant 0 <= k <= n && Valid() && tmp[..n] == digits
        invariant full + Reverse(digits[..k]) == old(full) + Reverse(digits)
      {
        k := k - 1;
        ReverseLast(digits[..k + 1]);
        assert digits[..k + 1][..k] == digits[..k];
        PutByte(tmp[k]);
      }
      assert digits[..0] == [];
    }

    /** Print an integer: collect digits backwards in a 64-byte buffer, then sign, padding and digits.
        A precision above 64 does not fit the buffer. */
    method PutUint(v: nat, base: nat, upper: bool, negative: bool, width: nat, prec: Option<nat>, zeroPad: bool, left: bool)
      requires Valid() && v < 0x1_0000_0000_0000_0000 && 8 <= base <= 16 && (prec.Some? ==> prec.value <= 64)
      modifies this, buf
      ensures Valid() && full == old(full) + FmtUint(v, base, upper, negative, width, prec, zeroPad, left)
    {
      hide DigitField, Reverse, Prefix, FmtUint;
      var tmp, n := CollectDigits(v, base, upper, prec);
      var pad := Pad(width, n + (if negative then 1 else 0));
      ghost var start := full;
      PutPrefix(negative, pad, zeroPad && prec == None, left);
      PutReversed(tmp, n);
      if left { PutRepeat(SPACE, pad); }
      FmtUintParts(start, v, base, upper, negative, width, prec, zeroPad, left, pad);
    }

    method PutPrefix(negative: bool, pad: nat, zeros: bool, left: bool)
      requires Valid()
      modifies this, buf
      ensures Valid() && full == old(full) + Prefix(negative, pad, zeros, left)
    {
      if !left {
        if zeros {
          if negative { PutByte(MINUS); }
          PutRepeat(ZERO, pad);
        } else {
          PutRepeat(SPACE, pad);
          if negative { PutByte(MINUS); }
        }
      } else {
        if negative { PutByte(MINUS); }
      }
    }
  }

  method CollectDigits(v: nat, base: nat, upper: bool, prec: Option<nat>) returns (tmp: array<byte>, n: nat)
    requires v < 0x1_0000_0000_0000_0000 && 8 <= base <= 16 && (prec.Some? ==> prec.value <= 64)
    ensures fresh(tmp) && tmp.Length == 64 && n <= 64 && tmp[..n] == DigitField(v, base, upper, prec)
  {
    tmp := new byte[64](_ => 0);
    n := 0;
    if v == 0 {
      if prec == None || prec.value != 0 {
        tmp[0] := ZERO;
        n := 1;
      }
    } else {
      n := DivideDown(tmp, v, base, upper);
    }
    ghost var ds := tmp[..n];
    assert ds == if v == 0 && prec != Some(0) then [ZERO] else Digits(v, base, upper);
    var least := if prec.Some? then prec.value else 0;
    while n < least
      invariant n <= 64 && |ds| <= n && (n > |ds| ==> n <= least) && tmp[..n] == ds + Repeat(ZERO, n - |ds|)
    {
      tmp[n] := ZERO;
      n := n + 1;
      assert tmp[..n] == tmp[..n - 1] + [ZERO];
    }
  }

  method DivideDown(tmp: array<byte>, v: nat, base: nat, upper: bool) returns (n: nat)
    requires tmp.Length == 64 && v < 0x1_0000_0000_0000_0000 && 8 <= base <= 16
    modifies tmp
    ensures n <= 22 && tmp[..n] == Digits(v, base, upper)
  {
    hide Digits, Pow8, Quot, Rem;
    n := 0;
    var val: nat := v;
    PowersOf8();
    assert tmp[..0] + Digits(v, base, upper) == Digits(v, base, upper);
    while val != 0
      invariant n <= 22 && val < Pow8(22 - n)
      invariant tmp[..n] + Digits(val, base, upper) == Digits(v, base, upper)
      decreases val
    {
      ghost var done := tmp[..n];
      DigitsStep(val, base, upper, done, n);
      tmp[n] := Digit(Rem(val, base), upper);
      n := n + 1;
      assert tmp[..n] == done + [Digit(Rem(val, base), upper)];
      val := Quot(val, base);
    }
    DigitsEnd(base, upper);
  }

  /** One division: the next digit, and a smaller value with one octal digit less to come at most. */
  lemma {:induction false} DigitsStep(v: nat, base: nat, upper: bool, done: seq<byte>, n: nat)
    requires 8 <= base <= 16 && n <= 22 && 0 < v < Pow8(22 - n)
    ensures n < 22 && Quot(v, base) < v && Quot(v, base) < Pow8(22 - (n + 1))
    ensures done + Digits(v, base, upper) == done + [Digit(Rem(v, base), upper)] + Digits(Quot(v, base), base, upper)
  {
    hide Quot, Rem;
    assert Pow8(0) == 1;
    DivSmaller(v, base, Pow8(21 - n));
    Assoc(done, [Digit(Rem(v, base), upper)], Digits(Quot(v, base), base, upper));
  }

  lemma {:induction false} DigitsEnd(base: nat, upper: bool)
    requires 2 <= base <= 36
    ensures Digits(0, base, upper) == []
  {
  }

  lemma {:induction false} ReverseLast(s: seq<byte>)
    requires s != []
    ensures Reverse(s) == [s[|s| - 1]] + Reverse(s[..|s| - 1])
  {
    if |s| > 1 {
      ReverseLast(s[1..]);
      assert s[1..][..|s| - 2] == s[..|s| - 1][1..];
    } else {
      assert s[1..] == [] && s[..0] == [];
    }
  }
}
