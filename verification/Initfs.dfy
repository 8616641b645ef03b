/**
 The kernel's reader of the boot archive, and what it finds in an archive the build tool wrote.
 */
module Initfs {

  import opened Arithmetic
  import opened Bytes
  import opened Ustar

  // ----- the reader -----

  /** The bytes before the first NUL. */
  function CString(s: seq<byte>): (r: seq<byte>)
    ensures r <= s && 0 !in r
    ensures |r| < |s| ==> s[|r|] == 0
  {
    if s == [] || s[0] == 0 then [] else [s[0]] + CString(s[1..])
  }

  predicate IsZero(s: seq<byte>) {
    forall i :: 0 <= i < |s| ==> s[i] == 0
  }

  function AlignUp512(n: nat): nat {
    (n + 511) / 512 * 512
  }

  /** The data of the first entry with that name, scanning headers from the front. */
  function Find(bytes: seq<byte>, name: seq<byte>): Option<seq<byte>>
    decreases |bytes|
  {
    if |bytes| < BLOCK || IsZero(bytes[..BLOCK]) then None else
    var size := ParseOctal(bytes[124..136], 0);
    if size > |bytes| - BLOCK then None
    else if CString(bytes[..100]) == name then Some(bytes[BLOCK..BLOCK + size])
    else if BLOCK + AlignUp512(size) > |bytes| then None
    else Find(bytes[BLOCK + AlignUp512(size)..], name)
  }

  method IsZeroBlock(block: seq<byte>) returns (zero: bool)
    ensures zero == IsZero(block)
  {
    for i := 0 to |block|
      invariant IsZero(block[..i])
    {
      if block[i] != 0 { return false; }
    }
    return true;
  }

  method ParseOctalField(field: seq<byte>) returns (result: nat)
    ensures result == ParseOctal(field, 0)
  {
    result := 0;
    for i := 0 to |field|
      invariant ParseOctal(field[i..], result) == ParseOctal(field, 0)
    {
      var ch := field[i];
      if ch == 0 || ch == SP { return; }
      if ch < ZERO || ch > ZERO + 7 { return 0; }
      assert field[i..][1..] == field[i + 1..];
      result := Saturate(Saturate(result * 8) + (ch - ZERO));
    }
  }

  method FindFileIn(bytes: seq<byte>, name: seq<byte>) returns (r: Option<seq<byte>>)
    ensures r == Find(bytes, name)
  {
    hide ParseOctal, CString, IsZero;
    var offset := 0;
    assert bytes[0..] == bytes;
    while offset + BLOCK <= |bytes|
      invariant offset <= |bytes| ==> Find(bytes[offset..], name) == Find(bytes, name)
      invariant offset > |bytes| ==> Find(bytes, name) == None
      decreases |bytes| - offset
    {
      var hdr := bytes[offset..offset + BLOCK];
      ghost var rest := bytes[offset..];
      assert rest[..BLOCK] == hdr && rest[..100] == hdr[..100] && rest[124..136] == hdr[124..136];
      var zero := IsZeroBlock(hdr);
      if zero { return None; }
      var entryName := CString(hdr[..100]);
      var size := ParseOctalField(hdr[124..136]);
      var dataStart := offset + BLOCK;
      if size > |bytes| - dataStart { return None; }
      assert rest[BLOCK..BLOCK + size] == bytes[dataStart..dataStart + size];
      if entryName == name { return Some(bytes[dataStart..dataStart + size]); }
      ghost var step := BLOCK + AlignUp512(size);
      assert step <= |rest| ==> rest[step..] == bytes[offset + step..];
      offset := offset + BLOCK + AlignUp512(size);
    }
    return None;
  }

  // ----- any bytes at all -----

  /** The field at `off` and the data behind it, as the reader takes them. */
  predicate EntryAt(bytes: seq<byte>, off: nat, name: seq<byte>, data: seq<byte>) {
    off % BLOCK == 0 && off + BLOCK + |data| <= |bytes|
    && !IsZero(bytes[off..off + BLOCK])
    && CString(bytes[off..off + 100]) == name
    && ParseOctal(bytes[off + 124..off + 136], 0) == |data|
    && bytes[off + BLOCK..off + BLOCK + |data|] == data
  }

  /** Whatever the bytes are, what is found is the data of an entry of that name, at a block boundary
      and inside them. */
  lemma {:induction false} FoundIsEntry(bytes: seq<byte>, name: seq<byte>) returns (off: nat)
    requires Find(bytes, name).Some?
    ensures EntryAt(bytes, off, name, Find(bytes, name).value)
    decreases |bytes|
  {
    hide ParseOctal, CString, IsZero, EntryAt;
    var size := ParseOctal(bytes[124..136], 0);
    if CString(bytes[..100]) == name {
      off := 0;
      FirstEntry(bytes, name);
    } else {
      var step := BLOCK + AlignUp512(size);
      var rest := bytes[step..];
      off := FoundIsEntry(rest, name);
      EntryLater(bytes, step, off, name, Find(rest, name).value);
      off := step + off;
    }
  }

  lemma {:induction false} FirstEntry(bytes: seq<byte>, name: seq<byte>)
    requires Find(bytes, name).Some? && CString(bytes[..100]) == name
    ensures EntryAt(bytes, 0, name, Find(bytes, name).value)
  {
    hide ParseOctal, CString, IsZero;
    assert bytes[0..0 + 100] == bytes[..100] && bytes[0..0 + BLOCK] == bytes[..BLOCK];
  }

  lemma {:induction false} EntryLater(bytes: seq<byte>, step: nat, off: nat, name: seq<byte>, data: seq<byte>)
    requires step <= |bytes| && step % BLOCK == 0 && EntryAt(bytes[step..], off, name, data)
    ensures EntryAt(bytes, step + off, name, data)
  {
    hide ParseOctal, CString, IsZero;
    var rest, at := bytes[step..], step + off;
    assert rest[off..off + BLOCK] == bytes[at..at + BLOCK];
    assert rest[off..off + 100] == bytes[at..at + 100];
    assert rest[off + 124..off + 136] == bytes[at + 124..at + 136];
    assert rest[off + BLOCK..off + BLOCK + |data|] == bytes[at + BLOCK..at + BLOCK + |data|];
  }

  // ----- reading what was written -----

  /** A name as it comes back: cut at 99 bytes and at its first NUL. */
  function Stored(name: seq<byte>): seq<byte> {
    CString(name[..Min(|name|, NAME_MAX)])
  }

  /** The first entry stored under `name`. */
  function Lookup(es: seq<Entry>, name: seq<byte>): Option<seq<byte>> {
    if es == [] then None
    else if Stored(es[0].name) == name then Some(es[0].data)
    else Lookup(es[1..], name)
  }

  lemma {:induction false} CStringPadded(s: seq<byte>, n: nat)
    requires n > 0
    ensures CString(s + Repeat(0, n)) == CString(s)
  {
    if s != [] && s[0] != 0 {
      assert (s + Repeat(0, n))[1..] == s[1..] + Repeat(0, n);
      CStringPadded(s[1..], n);
    }
  }

  /** The three things a reader takes from a header. */
  lemma {:induction false} ReadHeader(h: seq<byte>, name: seq<byte>, size: nat)
    requires IsHeader(h, name, size) && size < SIZE_LIMIT
    ensures !IsZero(h) && CString(h[..100]) == Stored(name) && ParseOctal(h[124..136], 0) == size
  {
    assert h[156] != 0;
    var n := Min(|name|, NAME_MAX);
    CStringPadded(name[..n], NAME_MAX + 1 - n);
    PowersOf8();
    ParseOctalOf(size, 11, [SP]);
  }

  /** One entry, read from the front of an archive. */
  lemma {:induction false} FindFirst(bytes: seq<byte>, e: Entry, name: seq<byte>)
    requires StartsWith(bytes, e) && |e.data| < SIZE_LIMIT
    ensures Find(bytes, name) == if Stored(e.name) == name then Some(e.data) else Find(bytes[EntrySize(e)..], name)
  {
    hide IsHeader, ParseOctal, CString, Stored, IsZero;
    var h := bytes[..BLOCK];
    ReadHeader(h, e.name, |e.data|);
    assert bytes[..100] == h[..100] && bytes[124..136] == h[124..136];
    assert BLOCK + AlignUp512(|e.data|) == EntrySize(e);
  }

  /** The entries, and then something that ends the search: less than a block, a zero block, or a
      header whose size goes beyond the end. */
  ghost predicate Ends(bytes: seq<byte>, es: seq<Entry>)
    decreases es
  {
    if es == [] then |bytes| < BLOCK || IsZero(bytes[..BLOCK]) || ParseOctal(bytes[124..136], 0) > |bytes| - BLOCK
    else StartsWith(bytes, es[0]) && Ends(bytes[EntrySize(es[0])..], es[1..])
  }

  /** The search ends there: the first zero block is enough, a damaged end does no harm, and exactly the
      files before it are found. */
  lemma {:induction false} StopsAtEnd(bytes: seq<byte>, es: seq<Entry>, name: seq<byte>)
    requires Ends(bytes, es) && forall i :: 0 <= i < |es| ==> |es[i].data| < SIZE_LIMIT
    ensures Find(bytes, name) == Lookup(es, name)
    decreases es
  {
    if es != [] {
      FindFirst(bytes, es[0], name);
      StopsAtEnd(bytes[EntrySize(es[0])..], es[1..], name);
    }
  }

  /** On every archive the build tool writes, the kernel finds exactly what the list of files says. */
  lemma {:induction false} FindInArchive(bytes: seq<byte>, es: seq<Entry>, name: seq<byte>)
    requires IsArchive(bytes, es) && forall i :: 0 <= i < |es| ==> |es[i].data| < SIZE_LIMIT
    ensures Find(bytes, name) == Lookup(es, name)
  {
    ArchiveEnds(bytes, es);
    StopsAtEnd(bytes, es, name);
  }

  lemma {:induction false} ArchiveEnds(bytes: seq<byte>, es: seq<Entry>)
    requires IsArchive(bytes, es)
    ensures Ends(bytes, es)
    decreases es
  {
    if es == [] {
      assert IsZero(bytes[..BLOCK]);
    } else {
      ArchiveEnds(bytes[EntrySize(es[0])..], es[1..]);
    }
  }

  predicate Storable(name: seq<byte>) {
    |name| <= NAME_MAX && 0 !in name
  }

  lemma {:induction false} StoredIffStorable(name: seq<byte>)
    ensures Stored(name) == name <==> Storable(name)
  {
    var n := Min(|name|, NAME_MAX);
    if Storable(name) {
      assert name[..n] == name;
      assert forall i :: 0 <= i < |name| ==> name[i] in name;
    }
  }

  lemma {:induction false} LookupAt(es: seq<Entry>, i: nat)
    requires i < |es| && Storable(es[i].name)
    requires forall j :: 0 <= j < i ==> Stored(es[j].name) != es[i].name
    ensures Lookup(es, es[i].name) == Some(es[i].data)
  {
    StoredIffStorable(es[i].name);
    if i > 0 { LookupAt(es[1..], i - 1); }
  }

  lemma {:induction false} LookupNot(es: seq<Entry>, name: seq<byte>)
    requires !Storable(name)
    ensures Lookup(es, name) == None
  {
    if es != [] {
      LookupNot(es[1..], name);
      var n := Min(|es[0].name|, NAME_MAX);
      assert |es[0].name[..n]| <= NAME_MAX;
    }
  }

  /** The whole path, build tool to kernel: every file with a storable name that no earlier file
      shares comes back byte for byte under its own name; a name that cannot be stored finds nothing. */
  method PackAndFind(es: seq<Entry>, i: nat) returns (r: Option<seq<byte>>)
    requires i < |es| && forall e :: e in es ==> |e.data| < SIZE_LIMIT
    ensures !Storable(es[i].name) ==> r == None
    ensures Storable(es[i].name) && (forall j :: 0 <= j < i ==> Stored(es[j].name) != es[i].name) ==> r == Some(es[i].data)
  {
    var bytes := WriteArchive(es);
    r := FindFileIn(bytes, es[i].name);
    FindInArchive(bytes, es, es[i].name);
    if !Storable(es[i].name) {
      LookupNot(es, es[i].name);
    } else if forall j :: 0 <= j < i ==> Stored(es[j].name) != es[i].name {
      LookupAt(es, i);
    }
  }

  // ----- a reference reader that checks headers -----

  /** Every entry, checking magic and checksum, up to the first zero block. */
  function ReadAll(bytes: seq<byte>): Option<seq<Entry>>
    decreases |bytes|
  {
    if |bytes| < BLOCK then None else
    var h := bytes[..BLOCK];
    if IsZero(h) then Some([]) else
    var size := ParseOctal(h[124..136], 0);
    if h[257..263] != MAGIC || ParseOctal(h[148..156], 0) != Checksum(h) || BLOCK + AlignUp512(size) > |bytes| then None
    else match ReadAll(bytes[BLOCK + AlignUp512(size)..])
      case None => None
      case Some(rest) => Some([Entry(CString(h[..100]), bytes[BLOCK..BLOCK + size])] + rest)
  }

  function AsStored(es: seq<Entry>): (r: seq<Entry>)
    ensures |r| == |es|
  {
    if es == [] then [] else [Entry(Stored(es[0].name), es[0].data)] + AsStored(es[1..])
  }

  lemma {:induction false} SumBound(s: seq<byte>)
    ensures Sum(s) <= 255 * |s|
  {
    if s != [] { SumBound(s[..|s| - 1]); }
  }

  lemma {:induction false} ChecksumReadsBack(h: seq<byte>, name: seq<byte>, size: nat)
    requires IsHeader(h, name, size)
    ensures ParseOctal(h[148..156], 0) == Checksum(h) && h[257..263] == MAGIC
  {
    SumBound(h[..148]);
    SumBound(h[156..]);
    PowersOf8();
    ParseOctalOf(Checksum(h), 6, [0, SP]);
    assert ParseOctal([0, SP], Checksum(h)) == Checksum(h);
  }

  lemma {:induction false} ReadAllFirst(bytes: seq<byte>, e: Entry, rest: seq<Entry>)
    requires StartsWith(bytes, e) && |e.data| < SIZE_LIMIT && ReadAll(bytes[EntrySize(e)..]) == Some(rest)
    ensures ReadAll(bytes) == Some([Entry(Stored(e.name), e.data)] + rest)
  {
    hide IsHeader, ParseOctal, CString, Stored, IsZero, Checksum;
    var h := bytes[..BLOCK];
    ReadHeader(h, e.name, |e.data|);
    ChecksumReadsBack(h, e.name, |e.data|);
    assert BLOCK + AlignUp512(|e.data|) == EntrySize(e);
  }

  lemma {:induction false} ReadAllArchive(bytes: seq<byte>, es: seq<Entry>)
    requires IsArchive(bytes, es) && forall i :: 0 <= i < |es| ==> |es[i].data| < SIZE_LIMIT
    ensures ReadAll(bytes) == Some(AsStored(es))
    decreases es
  {
    hide IsHeader;
    if es == [] {
      assert IsZero(bytes[..BLOCK]);
    } else {
      ReadAllArchive(bytes[EntrySize(es[0])..], es[1..]);
      ReadAllFirst(bytes, es[0], AsStored(es[1..]));
    }
  }

  lemma {:induction false} AsStoredIdentity(es: seq<Entry>)
    ensures AsStored(es) == es <==> forall i :: 0 <= i < |es| ==> Storable(es[i].name)
  {
    if es != [] {
      AsStoredIdentity(es[1..]);
      StoredIffStorable(es[0].name);
      assert es == [es[0]] + es[1..];
      assert AsStored(es)[1..] == AsStored(es[1..]);
      assert (forall i :: 0 <= i < |es| ==> Storable(es[i].name))
        <==> (Storable(es[0].name) && forall i :: 0 <= i < |es[1..]| ==> Storable(es[1..][i].name)) by {
        assert forall i :: 0 <= i < |es[1..]| ==> es[1..][i] == es[i + 1];
        assert forall i :: 0 < i < |es| ==> es[i] == es[1..][i - 1];
      }
    }
  }

  /** Reading an archive back gives the very list that was packed, if and only if every name has at
      most 99 bytes and no NUL. */
  lemma {:induction false} RoundTrip(bytes: seq<byte>, es: seq<Entry>)
    requires IsArchive(bytes, es) && forall i :: 0 <= i < |es| ==> |es[i].data| < SIZE_LIMIT
    ensures ReadAll(bytes) == Some(es) <==> forall i :: 0 <= i < |es| ==> Storable(es[i].name)
  {
    ReadAllArchive(bytes, es);
    AsStoredIdentity(es);
  }
}
