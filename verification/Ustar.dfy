/**
 The build tool that packs the boot files into a POSIX ustar archive, and the numbers of its headers
 as the kernel reads them back. A header follows the "ustar Interchange Format" of the pax utility
 (IEEE Std 1003.1): fixed fields at fixed offsets of a 512-byte block.
 */
module Ustar {

  import opened Arithmetic
  import opened Bytes

  const SP := 32     // ' '
  const ZERO := 48   // '0'
  const BLOCK := 512
  const MODE: seq<byte> := [48, 48, 48, 48, 54, 52, 52, 0]   // "0000644\0"
  const ID: seq<byte> := [48, 48, 48, 48, 48, 48, 48, 0]     // "0000000\0"
  const MAGIC: seq<byte> := [117, 115, 116, 97, 114, 0]      // "ustar\0"
  const VERSION: seq<byte> := [48, 48]                       // "00"
  const NAME_MAX := 99
  const SIZE_LIMIT := 0x2_0000_0000                          // 8^11

  // ----- octal fields -----

  /** `n` octal digits of `v`, most significant first. */
  function Octal(v: nat, n: nat): (r: seq<byte>)
    ensures |r| == n
    ensures forall i :: 0 <= i < n ==> ZERO <= r[i] < ZERO + 8
  {
    if n == 0 then [] else Octal(v / 8, n - 1) + [ZERO + v % 8]
  }

  const USIZE_MAX := 0xFFFF_FFFF_FFFF_FFFF

  /** Saturating arithmetic on a 64-bit word. */
  function Saturate(v: nat): nat {
    Min(v, USIZE_MAX)
  }

  /** The value of the leading digits of a field: up to a NUL or a space, 0 if another byte comes first. */
  function ParseOctal(field: seq<byte>, acc: nat): nat
    decreases |field|
  {
    if field == [] || field[0] == 0 || field[0] == SP then acc
    else if field[0] < ZERO || field[0] > ZERO + 7 then 0
    else ParseOctal(field[1..], Saturate(Saturate(acc * 8) + (field[0] - ZERO)))
  }

  lemma {:induction false} ParseDigit(d: byte, t: seq<byte>, acc: nat)
    requires ZERO <= d < ZERO + 8 && acc * 8 + (d - ZERO) <= USIZE_MAX
    ensures ParseOctal([d] + t, acc) == ParseOctal(t, acc * 8 + (d - ZERO))
  {
    assert ([d] + t)[1..] == t;
  }

  /** Parsing undoes printing. */
  lemma {:induction false} ParseOctalOf(v: nat, n: nat, t: seq<byte>)
    requires v < Pow8(n) && v <= USIZE_MAX
    ensures ParseOctal(Octal(v, n) + t, 0) == ParseOctal(t, v)
    decreases n
  {
    if n == 0 {
      assert Octal(v, n) + t == t;
    } else {
      var d: byte := ZERO + v % 8;
      assert Octal(v, n) + t == Octal(v / 8, n - 1) + ([d] + t);
      ParseOctalOf(v / 8, n - 1, [d] + t);
      ParseDigit(d, t, v / 8);
    }
  }

  // ----- the header -----

  function Sum(s: seq<byte>): nat {
    if s == [] then 0 else Sum(s[..|s| - 1]) + s[|s| - 1]
  }

  /** The sum of all bytes with the checksum field read as spaces. */
  function Checksum(h: seq<byte>): nat
    requires |h| == BLOCK
  {
    Sum(h[..148]) + 8 * SP + Sum(h[156..])
  }

  /** A name as stored: at most 99 bytes, then NULs to the end of its 100-byte field. */
  function NameField(name: seq<byte>): (r: seq<byte>)
    ensures |r| == NAME_MAX + 1
  {
    var n := Min(|name|, NAME_MAX);
    name[..n] + Repeat(0, NAME_MAX + 1 - n)
  }

  /** `h` is the header of a regular file: every byte of it is determined. */
  ghost predicate IsHeader(h: seq<byte>, name: seq<byte>, size: nat) {
    |h| == BLOCK
    && h[..100] == NameField(name)
    && h[100..108] == MODE && h[108..116] == ID && h[116..124] == ID
    && h[124..136] == Octal(size, 11) + [SP]
    && h[136..148] == Repeat(ZERO, 11) + [SP]
    && h[148..156] == Octal(Checksum(h), 6) + [0, SP]
    && h[156] == ZERO && h[157..257] == Repeat(0, 100)
    && h[257..263] == MAGIC && h[263..265] == VERSION && h[265..] == Repeat(0, 247)
  }

  // ----- the archive -----

  datatype Entry = Entry(name: seq<byte>, data: seq<byte>)

  function Padding(n: nat): nat {
    if n % BLOCK == 0 then 0 else BLOCK - n % BLOCK
  }

  /** `bytes` begins with header, data and padding of `e`. */
  ghost predicate StartsWith(bytes: seq<byte>, e: Entry) {
    var n, p := |e.data|, Padding(|e.data|);
    BLOCK + n + p <= |bytes|
    && IsHeader(bytes[..BLOCK], e.name, n)
    && bytes[BLOCK..BLOCK + n] == e.data
    && bytes[BLOCK + n..BLOCK + n + p] == Repeat(0, p)
  }

  function EntrySize(e: Entry): nat {
    BLOCK + |e.data| + Padding(|e.data|)
  }

  /** The entries in order, then two zero blocks. */
  ghost predicate IsArchive(bytes: seq<byte>, es: seq<Entry>) {
    if es == [] then bytes == Repeat(0, 2 * BLOCK)
    else StartsWith(bytes, es[0]) && IsArchive(bytes[EntrySize(es[0])..], es[1..])
  }

  // ----- the writer -----

  method Put(a: array<byte>, at: nat, s: seq<byte>)
    requires at + |s| <= a.Length
    modifies a
    ensures forall i :: 0 <= i < a.Length ==> a[i] == if at <= i < at + |s| then s[i - at] else old(a[i])
  {
    forall i | 0 <= i < |s| { a[at + i] := s[i]; }
  }

  method SumBytes(a: array<byte>) returns (sum: nat)
    requires a.Length == BLOCK
    ensures sum == Sum(a[..]) && sum <= 255 * BLOCK
  {
    sum := 0;
    for i := 0 to a.Length
      invariant sum == Sum(a[..i]) && sum <= 255 * i
    {
      assert a[..i + 1][..i] == a[..i];
      sum := sum + a[i];
    }
    assert a[..a.Length] == a[..];
  }

  /** The fields before the checksum. */
  method PutIdentity(header: array<byte>, name: seq<byte>, size: nat)
    requires header.Length == BLOCK && size < SIZE_LIMIT
    requires forall i :: 0 <= i < BLOCK ==> header[i] == 0
    modifies header
    ensures header[..100] == NameField(name)
    ensures header[100..108] == MODE && header[108..116] == ID && header[116..124] == ID
    ensures header[124..136] == Octal(size, 11) + [SP] && header[136..148] == Repeat(ZERO, 11) + [SP]
    ensures forall i :: 148 <= i < BLOCK ==> header[i] == 0
  {
    var n := Min(|name|, NAME_MAX);
    Put(header, 0, name[..n]);
    Put(header, 100, MODE);
    Put(header, 108, ID);
    Put(header, 116, ID);
    Put(header, 124, Octal(size, 11));
    header[135] := SP;
    Put(header, 136, Repeat(ZERO, 11));
    header[147] := SP;
    assert header[..100] == name[..n] + Repeat(0, NAME_MAX + 1 - n);
    assert header[100..108] == MODE;
    assert header[108..116] == ID;
    assert header[116..124] == ID;
    assert header[124..136] == Octal(size, 11) + [SP];
    assert header[136..148] == Repeat(ZERO, 11) + [SP];
  }

  lemma {:induction false} SumConcat(a: seq<byte>, b: seq<byte>)
    ensures Sum(a + b) == Sum(a) + Sum(b)
  {
    if b == [] {
      assert a + b == a;
    } else {
      assert (a + b)[..|a + b| - 1] == a + b[..|b| - 1];
      SumConcat(a, b[..|b| - 1]);
    }
  }

  lemma {:induction false} SumOfSpaces(n: nat)
    ensures Sum(Repeat(SP, n)) == n * SP
  {
    if n > 0 {
      assert Repeat(SP, n)[..n - 1] == Repeat(SP, n - 1);
      SumOfSpaces(n - 1);
    }
  }

  /** With the checksum field blank, the sum of the block is the checksum. */
  lemma {:induction false} BlankChecksum(h: seq<byte>)
    requires |h| == BLOCK && h[148..156] == Repeat(SP, 8)
    ensures Sum(h) == Checksum(h)
  {
    assert h == h[..148] + h[148..156] + h[156..];
    SumConcat(h[..148] + h[148..156], h[156..]);
    SumConcat(h[..148], h[148..156]);
    SumOfSpaces(8);
  }

  /** The fields after the checksum, and a blank checksum. */
  method PutTail(header: array<byte>)
    requires header.Length == BLOCK
    requires forall i :: 148 <= i < BLOCK ==> header[i] == 0
    modifies header
    ensures header[..148] == old(header[..148]) && header[148..156] == Repeat(SP, 8)
    ensures header[156] == ZERO && header[157..257] == Repeat(0, 100)
    ensures header[257..263] == MAGIC && header[263..265] == VERSION && header[265..] == Repeat(0, 247)
  {
    Put(header, 148, Repeat(SP, 8));
    header[156] := ZERO;
    Put(header, 257, MAGIC);
    Put(header, 263, VERSION);
    assert header[148..156] == Repeat(SP, 8);
    assert header[157..257] == Repeat(0, 100);
    assert header[257..263] == MAGIC;
    assert header[263..265] == VERSION;
    assert header[265..] == Repeat(0, 247);
  }

  /** Store the checksum of a header whose checksum field is blank. */
  method PutChecksum(header: array<byte>)
    requires header.Length == BLOCK && header[148..156] == Repeat(SP, 8)
    modifies header
    ensures header[..148] == old(header[..148]) && header[156..] == old(header[156..])
    ensures header[148..156] == Octal(Checksum(header[..]), 6) + [0, SP] && Checksum(header[..]) < Pow8(6)
  {
    BlankChecksum(header[..]);
    var checksum := SumBytes(header);
    Put(header, 148, Octal(checksum, 6));
    header[154] := 0;
    header[155] := SP;
    assert header[..][..148] == old(header[..])[..148];
    assert header[..][156..] == old(header[..])[156..];
    PowersOf8();
  }

  method WriteHeader(name: seq<byte>, size: nat) returns (header: array<byte>)
    requires size < SIZE_LIMIT
    ensures fresh(header) && IsHeader(header[..], name, size) && Checksum(header[..]) < Pow8(6)
  {
    header := new byte[BLOCK](_ => 0);
    PutIdentity(header, name, size);
    ghost var front := header[..148];
    assert front[..100] == header[..100] && front[100..108] == header[100..108] && front[108..116] == header[108..116];
    assert front[116..124] == header[116..124] && front[124..136] == header[124..136] && front[136..148] == header[136..148];
    PutTail(header);
    ghost var back := header[156..];
    assert back[0] == header[156] && back[1..101] == header[157..257] && back[101..107] == header[257..263];
    assert back[107..109] == header[263..265] && back[109..] == header[265..];
    PutChecksum(header);
    HeaderFromParts(header[..], name, size);
  }

  lemma {:induction false} HeaderFromParts(h: seq<byte>, name: seq<byte>, size: nat)
    requires |h| == BLOCK
    requires var f := h[..148];
             f[..100] == NameField(name) && f[100..108] == MODE && f[108..116] == ID && f[116..124] == ID
             && f[124..136] == Octal(size, 11) + [SP] && f[136..148] == Repeat(ZERO, 11) + [SP]
    requires h[148..156] == Octal(Checksum(h), 6) + [0, SP]
    requires var b := h[156..];
             b[0] == ZERO && b[1..101] == Repeat(0, 100) && b[101..107] == MAGIC && b[107..109] == VERSION
             && b[109..] == Repeat(0, 247)
    ensures IsHeader(h, name, size)
  {
    var f, b := h[..148], h[156..];
    assert h[..100] == f[..100] && h[100..108] == f[100..108] && h[108..116] == f[108..116];
    assert h[116..124] == f[116..124] && h[124..136] == f[124..136] && h[136..148] == f[136..148];
    assert h[156] == b[0] && h[157..257] == b[1..101] && h[257..263] == b[101..107];
    assert h[263..265] == b[107..109] && h[265..] == b[109..];
  }

  /** The output stream of the build tool. */
  class Writer {
    var out: seq<byte>

    constructor ()
      ensures out == []
    {
      out := [];
    }

    /** Append one file. */
    method WriteEntry(e: Entry)
      requires |e.data| < SIZE_LIMIT
      modifies this
      ensures old(out) <= out && |out| == |old(out)| + EntrySize(e)
      ensures StartsWith(out[|old(out)|..], e)
    {
      hide IsHeader;
      ghost var before := out;
      var header := WriteHeader(e.name, |e.data|);
      out := out + header[..];
      out := out + e.data;
      var remainder := |e.data| % BLOCK;
      if remainder != 0 {
        out := out + Repeat(0, BLOCK - remainder);
      }
      ghost var entry := header[..] + e.data + Repeat(0, Padding(|e.data|));
      assert out == before + entry;
      assert out[|before|..] == entry;
      EntryBytes(header[..], e);
    }
  }

  lemma {:induction false} EntryBytes(header: seq<byte>, e: Entry)
    requires IsHeader(header, e.name, |e.data|)
    ensures var entry := header + e.data + Repeat(0, Padding(|e.data|));
            |entry| == EntrySize(e) && StartsWith(entry, e)
  {
    var n, p := |e.data|, Padding(|e.data|);
    var entry := header + e.data + Repeat(0, p);
    assert |header| == BLOCK;
    hide IsHeader;
    assert entry[..BLOCK] == header;
    assert entry[BLOCK..BLOCK + n] == e.data;
    assert entry[BLOCK + n..BLOCK + n + p] == Repeat(0, p);
  }

  /** One more entry at the end of the entries written so far. */
  lemma {:induction false} ArchiveAppend(bytes: seq<byte>, es: seq<Entry>, e: Entry, entry: seq<byte>)
    requires IsEntries(bytes, es) && |entry| == EntrySize(e) && StartsWith(entry, e)
    ensures IsEntries(bytes + entry, es + [e])
    decreases es
  {
    hide StartsWith;
    if es == [] {
      assert bytes + entry == entry && (es + [e])[1..] == [] && entry[EntrySize(e)..] == [];
    } else {
      var n := EntrySize(es[0]);
      StartsWithPrefix(bytes, entry, es[0]);
      assert n <= |bytes|;
      assert (bytes + entry)[n..] == bytes[n..] + entry;
      assert (es + [e])[1..] == es[1..] + [e];
      ArchiveAppend(bytes[n..], es[1..], e, entry);
    }
  }

  lemma {:induction false} StartsWithPrefix(bytes: seq<byte>, t: seq<byte>, e: Entry)
    requires StartsWith(bytes, e)
    ensures EntrySize(e) <= |bytes| && StartsWith(bytes + t, e)
  {
    hide IsHeader;
    var n, p := |e.data|, Padding(|e.data|);
    assert (bytes + t)[..BLOCK] == bytes[..BLOCK];
    assert (bytes + t)[BLOCK..BLOCK + n] == bytes[BLOCK..BLOCK + n];
    assert (bytes + t)[BLOCK + n..BLOCK + n + p] == bytes[BLOCK + n..BLOCK + n + p];
  }

  /** The entries in order and nothing else. */
  ghost predicate IsEntries(bytes: seq<byte>, es: seq<Entry>) {
    if es == [] then bytes == []
    else StartsWith(bytes, es[0]) && IsEntries(bytes[EntrySize(es[0])..], es[1..])
  }

  lemma {:induction false} NoEntries()
    ensures IsEntries([], [])
  {
  }

  lemma {:induction false} ArchiveEnd(bytes: seq<byte>, es: seq<Entry>)
    requires IsEntries(bytes, es)
    ensures IsArchive(bytes + Repeat(0, 2 * BLOCK), es)
    decreases es
  {
    hide StartsWith;
    if es == [] {
      assert bytes + Repeat(0, 2 * BLOCK) == Repeat(0, 2 * BLOCK);
    } else {
      var n := EntrySize(es[0]);
      StartsWithPrefix(bytes, Repeat(0, 2 * BLOCK), es[0]);
      assert (bytes + Repeat(0, 2 * BLOCK))[n..] == bytes[n..] + Repeat(0, 2 * BLOCK);
      ArchiveEnd(bytes[n..], es[1..]);
    }
  }

  /** The build tool's main loop. */
  method WriteArchive(es: seq<Entry>) returns (bytes: seq<byte>)
    requires forall e :: e in es ==> |e.data| < SIZE_LIMIT
    ensures IsArchive(bytes, es)
  {
    hide StartsWith, IsEntries, IsArchive;
    var w := new Writer();
    NoEntries();
    for i := 0 to |es|
      invariant IsEntries(w.out, es[..i])
    {
      ghost var before := w.out;
      assert es[i] in es;
      w.WriteEntry(es[i]);
      ArchiveAppend(before, es[..i], es[i], w.out[|before|..]);
      assert before + w.out[|before|..] == w.out && es[..i] + [es[i]] == es[..i + 1];
    }
    assert es[..|es|] == es;
    ArchiveEnd(w.out, es);
    w.out := w.out + Repeat(0, 2 * BLOCK);
    bytes := w.out;
  }
}
