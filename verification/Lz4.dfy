/**
 The LZ4 block codec that compresses 4 KiB pages.

 `Decode` is the block format read as a function of the input bytes; `Decompress` is the
 in-place decoder and is proved to compute exactly that function, error cases included.
 `Compress` is the hash-table match finder; whatever matches it finds, decoding what it
 wrote gives back its input.
 */
module Lz4 {

  import opened Bytes

  const PAGE_SIZE := 4096
  const MAX_COMPRESSED_SIZE := PAGE_SIZE + PAGE_SIZE / 255 + 16
  const HASH_SIZE := 4096
  const MIN_MATCH := 4
  const LAST_LITERALS := 5

  datatype Result<+T> = Ok(value: T) | BufferTooSmall | CorruptInput

  /** `NoRoom` is the error for a short buffer, `OutOfBounds` a write past the end of a longer one. */
  datatype Compression = Compressed(size: nat) | NoRoom | OutOfBounds

  // ----- the block format -----

  /** Length extension bytes: the sum of a run of 255s and the byte that ends it. The run may be
      cut short by the end of the input. The second component is what follows. */
  function ReadExtension(s: seq<byte>): (r: (nat, seq<byte>))
    ensures |r.1| <= |s|
  {
    if s == [] then (0, s)
    else if s[0] != 255 then (s[0], s[1..])
    else var (n, rest) := ReadExtension(s[1..]); (255 + n, rest)
  }

  function ReadLength(nibble: nat, s: seq<byte>): (r: (nat, seq<byte>))
    ensures |r.1| <= |s|
  {
    if nibble != 15 then (nibble, s)
    else var (n, rest) := ReadExtension(s); (15 + n, rest)
  }

  /** Append `n` bytes, each copied from `offset` bytes back; the copy may overlap itself. */
  function CopyMatch(out: seq<byte>, offset: nat, n: nat): (r: seq<byte>)
    requires 0 < offset <= |out|
    ensures |r| == |out| + n
    decreases n
  {
    if n == 0 then out else CopyMatch(out + [out[|out| - offset]], offset, n - 1)
  }

  datatype Step = Stop(result: Result<seq<byte>>) | More(rest: seq<byte>, out: seq<byte>)

  /** Decode a back reference: two offset bytes and the length extension of `nibble`. */
  function DecodeMatch(nibble: nat, src: seq<byte>, out: seq<byte>, cap: nat): (r: Step)
    ensures r.More? ==> |r.rest| < |src|
  {
    if |src| < 2 then Stop(CorruptInput) else
    var offset := src[0] as int + 256 * src[1] as int;
    if offset == 0 || |out| < offset then Stop(CorruptInput) else
    var (extra, rest) := ReadLength(nibble, src[2..]);
    if |out| + extra + MIN_MATCH > cap then Stop(BufferTooSmall)
    else More(rest, CopyMatch(out, offset, extra + MIN_MATCH))
  }

  /** Decode one sequence: a literal run and, unless the input ends there, a back reference. */
  function DecodeOne(src: seq<byte>, out: seq<byte>, cap: nat): (r: Step)
    requires src != []
    ensures r.More? ==> |r.rest| < |src|
  {
    var (litLen, rest) := ReadLength(src[0] / 16, src[1..]);
    if |out| + litLen > cap then Stop(BufferTooSmall)
    else if litLen > |rest| then Stop(CorruptInput)
    else if litLen == |rest| then Stop(Ok(out + rest))
    else DecodeMatch(src[0] % 16, rest[litLen..], out + rest[..litLen], cap)
  }

  /** Decode `src` after `out` has been produced, into a buffer of `cap` bytes. */
  function Decode(src: seq<byte>, out: seq<byte>, cap: nat): Result<seq<byte>>
    decreases |src|
  {
    if src == [] then Ok(out) else
    match DecodeOne(src, out, cap)
    case Stop(result) => result
    case More(rest, out') => Decode(rest, out', cap)
  }

  // ----- what an encoder writes -----

  /** A literal run followed by a back reference of `extra + MIN_MATCH` bytes. */
  datatype Sequence = Sequence(literals: seq<byte>, offset: nat, extra: nat)

  function Nibble(n: nat): (r: nat)
    ensures r < 16
  {
    if n < 15 then n else 15
  }

  function Extension(n: nat): seq<byte> {
    if n < 255 then [n] else [255] + Extension(n - 255)
  }

  function LengthBytes(n: nat): seq<byte> {
    if n < 15 then [] else Extension(n - 15)
  }

  function MatchBytes(offset: nat, extra: nat): (r: seq<byte>)
    requires offset < 0x10000
    ensures |r| >= 2
  {
    [offset % 256, offset / 256] + LengthBytes(extra)
  }

  function SequenceBytes(q: Sequence): seq<byte>
    requires q.offset < 0x10000
  {
    [Nibble(|q.literals|) * 16 + Nibble(q.extra)] + LengthBytes(|q.literals|) + q.literals
    + MatchBytes(q.offset, q.extra)
  }

  function LastBytes(literals: seq<byte>): seq<byte> {
    [Nibble(|literals|) * 16] + LengthBytes(|literals|) + literals
  }

  /** The text that a list of sequences stands for, or `None` when an offset reaches before its start. */
  function Expand(qs: seq<Sequence>): Option<seq<byte>> {
    if qs == [] then Some([]) else
    var last := qs[|qs| - 1];
    match Expand(qs[..|qs| - 1])
    case None => None
    case Some(out) =>
      if 0 < last.offset <= |out| + |last.literals| && last.offset < 0x10000
      then Some(CopyMatch(out + last.literals, last.offset, last.extra + MIN_MATCH))
      else None
  }

  function BlockBytes(qs: seq<Sequence>): seq<byte>
    requires Expand(qs).Some?
  {
    if qs == [] then [] else BlockBytes(qs[..|qs| - 1]) + SequenceBytes(qs[|qs| - 1])
  }

  // ----- decoding undoes encoding -----

  lemma {:induction false} ReadExtensionInverts(n: nat, t: seq<byte>)
    ensures ReadExtension(Extension(n) + t) == (n, t)
  {
    if n < 255 {
      assert (Extension(n) + t)[1..] == t;
    } else {
      ReadExtensionInverts(n - 255, t);
      assert (Extension(n) + t)[1..] == Extension(n - 255) + t;
    }
  }

  lemma {:induction false} ReadLengthInverts(n: nat, t: seq<byte>)
    ensures ReadLength(Nibble(n), LengthBytes(n) + t) == (n, t)
  {
    if n < 15 {
      assert LengthBytes(n) + t == t;
    } else {
      ReadExtensionInverts(n - 15, t);
    }
  }

  lemma {:induction false} DecodeMatchInverts(offset: nat, extra: nat, t: seq<byte>, out: seq<byte>, cap: nat)
    requires 0 < offset <= |out| && offset < 0x10000 && |out| + extra + MIN_MATCH <= cap
    ensures DecodeMatch(Nibble(extra), MatchBytes(offset, extra) + t, out, cap)
         == More(t, CopyMatch(out, offset, extra + MIN_MATCH))
  {
    assert (MatchBytes(offset, extra) + t)[2..] == LengthBytes(extra) + t;
    ReadLengthInverts(extra, t);
  }

  /** A literal run at the head of a block that goes on hands over to the back reference. */
  lemma {:induction false} DecodeLiteralsInverts(nibble: nat, literals: seq<byte>, m: seq<byte>, out: seq<byte>, cap: nat)
    requires nibble < 16 && m != [] && |out| + |literals| <= cap
    ensures DecodeOne([Nibble(|literals|) * 16 + nibble] + (LengthBytes(|literals|) + (literals + m)), out, cap)
         == DecodeMatch(nibble, m, out + literals, cap)
  {
    hide ReadLength, DecodeMatch, LengthBytes;
    var token := Nibble(|literals|) * 16 + nibble;
    var rest := LengthBytes(|literals|) + (literals + m);
    assert token / 16 == Nibble(|literals|) && token % 16 == nibble;
    assert ([token] + rest)[1..] == rest;
    ReadLengthInverts(|literals|, literals + m);
    assert (literals + m)[..|literals|] == literals && (literals + m)[|literals|..] == m;
  }

  lemma {:induction false} SequenceBytesThen(q: Sequence, t: seq<byte>)
    requires q.offset < 0x10000
    ensures SequenceBytes(q) + t
         == [Nibble(|q.literals|) * 16 + Nibble(q.extra)]
            + (LengthBytes(|q.literals|) + (q.literals + (MatchBytes(q.offset, q.extra) + t)))
  {
  }

  lemma {:induction false} DecodeSequence(q: Sequence, t: seq<byte>, out: seq<byte>, cap: nat)
    requires 0 < q.offset <= |out| + |q.literals| && q.offset < 0x10000
    requires |out| + |q.literals| + q.extra + MIN_MATCH <= cap
    ensures Decode(SequenceBytes(q) + t, out, cap)
         == Decode(t, CopyMatch(out + q.literals, q.offset, q.extra + MIN_MATCH), cap)
  {
    hide ReadLength, ReadExtension, CopyMatch, SequenceBytes, MatchBytes, LengthBytes, DecodeMatch, DecodeOne;
    SequenceBytesThen(q, t);
    DecodeLiteralsInverts(Nibble(q.extra), q.literals, MatchBytes(q.offset, q.extra) + t, out, cap);
    DecodeMatchInverts(q.offset, q.extra, t, out + q.literals, cap);
  }

  lemma {:induction false} DecodeLast(literals: seq<byte>, out: seq<byte>, cap: nat)
    requires |out| + |literals| <= cap
    ensures Decode(LastBytes(literals), out, cap) == Ok(out + literals)
  {
    var s := LastBytes(literals);
    assert s[1..] == LengthBytes(|literals|) + literals;
    ReadLengthInverts(|literals|, literals);
  }

  lemma {:induction false} DecodeBlock(qs: seq<Sequence>, t: seq<byte>, cap: nat)
    requires Expand(qs).Some? && |Expand(qs).value| <= cap
    ensures Decode(BlockBytes(qs) + t, [], cap) == Decode(t, Expand(qs).value, cap)
  {
    hide Decode, CopyMatch, SequenceBytes;
    if qs == [] {
      assert BlockBytes(qs) + t == t;
    } else {
      var init, last := qs[..|qs| - 1], qs[|qs| - 1];
      DecodeBlock(init, SequenceBytes(last) + t, cap);
      Assoc(BlockBytes(init), SequenceBytes(last), t);
      DecodeSequence(last, t, Expand(init).value, cap);
    }
  }

  /** Every list of sequences that stands for a text, followed by a literal tail, decodes to it. */
  lemma {:induction false} RoundTrip(qs: seq<Sequence>, tail: seq<byte>, cap: nat)
    requires Expand(qs).Some? && |Expand(qs).value| + |tail| <= cap
    ensures Decode(BlockBytes(qs) + LastBytes(tail), [], cap) == Ok(Expand(qs).value + tail)
  {
    DecodeBlock(qs, LastBytes(tail), cap);
    DecodeLast(tail, Expand(qs).value, cap);
  }

  // ----- blocks that are not well formed -----

  /** A literal run: too long for the buffer, longer than what is left of the input, or the end of it. */
  lemma {:induction false} LiteralErrors(n: nat, nibble: nat, rest: seq<byte>, out: seq<byte>, cap: nat)
    requires nibble < 16
    ensures var s := [Nibble(n) * 16 + nibble] + (LengthBytes(n) + rest);
            (|out| + n > cap ==> Decode(s, out, cap) == BufferTooSmall)
            && (|out| + n <= cap && n > |rest| ==> Decode(s, out, cap) == CorruptInput)
            && (|out| + n <= cap && n == |rest| ==> Decode(s, out, cap) == Ok(out + rest))
  {
    hide ReadLength, DecodeMatch, LengthBytes;
    var token := Nibble(n) * 16 + nibble;
    assert token / 16 == Nibble(n);
    assert ([token] + (LengthBytes(n) + rest))[1..] == LengthBytes(n) + rest;
    ReadLengthInverts(n, rest);
  }

  /** A back reference: its offset cut off, zero, or reaching before the start of the output. */
  lemma {:induction false} OffsetErrors(nibble: nat, literals: seq<byte>, m: seq<byte>, out: seq<byte>, cap: nat)
    requires nibble < 16 && m != [] && |out| + |literals| <= cap
    requires |m| >= 2 ==> m[0] == 0 == m[1] || m[0] as int + 256 * m[1] as int > |out| + |literals|
    ensures Decode([Nibble(|literals|) * 16 + nibble] + (LengthBytes(|literals|) + (literals + m)), out, cap) == CorruptInput
  {
    hide ReadLength, LengthBytes, DecodeOne;
    DecodeLiteralsInverts(nibble, literals, m, out, cap);
  }

  /** A match too long for the buffer. */
  lemma {:induction false} MatchTooLong(q: Sequence, t: seq<byte>, out: seq<byte>, cap: nat)
    requires 0 < q.offset <= |out| + |q.literals| && q.offset < 0x10000 && |out| + |q.literals| <= cap
    requires |out| + |q.literals| + q.extra + MIN_MATCH > cap
    ensures Decode(SequenceBytes(q) + t, out, cap) == BufferTooSmall
  {
    hide ReadLength, ReadExtension, SequenceBytes, LengthBytes, DecodeOne;
    SequenceBytesThen(q, t);
    var m := MatchBytes(q.offset, q.extra) + t;
    DecodeLiteralsInverts(Nibble(q.extra), q.literals, m, out, cap);
    assert m[2..] == LengthBytes(q.extra) + t;
    ReadLengthInverts(q.extra, t);
  }

  lemma {:induction false} AllExtension(k: nat)
    ensures ReadExtension(Repeat(255, k)) == (255 * k, [])
  {
    if k > 0 {
      assert Repeat(255, k)[1..] == Repeat(255, k - 1);
      AllExtension(k - 1);
    }
  }

  /** A match length cut off by the end of the input counts as far as it goes. */
  lemma {:induction false} ExtensionCut(literals: seq<byte>, offset: nat, k: nat, out: seq<byte>, cap: nat)
    requires 0 < offset <= |out| + |literals| && offset < 0x10000 && |out| + |literals| <= cap
    ensures var s := [Nibble(|literals|) * 16 + 15] + (LengthBytes(|literals|) + (literals + ([offset % 256, offset / 256] + Repeat(255, k))));
            var n := 15 + 255 * k + MIN_MATCH;
            Decode(s, out, cap)
            == if |out| + |literals| + n <= cap then Ok(CopyMatch(out + literals, offset, n)) else BufferTooSmall
  {
    hide ReadExtension, LengthBytes, DecodeOne, CopyMatch;
    var m: seq<byte> := [offset % 256, offset / 256] + Repeat(255, k);
    DecodeLiteralsInverts(15, literals, m, out, cap);
    assert m[2..] == Repeat(255, k);
    AllExtension(k);
  }

  /** The size of the buffer decides nothing but whether the text fits. */
  lemma {:induction false} CapOnlyBounds(src: seq<byte>, out: seq<byte>, cap: nat, cap': nat)
    requires Decode(src, out, cap).Ok? && |out| <= cap && |out| <= cap'
    ensures var text := Decode(src, out, cap).value;
            |out| <= |text| <= cap && Decode(src, out, cap') == if |text| <= cap' then Ok(text) else BufferTooSmall
    decreases |src|
  {
    hide ReadLength, CopyMatch;
    if src != [] {
      var step, step' := DecodeOne(src, out, cap), DecodeOne(src, out, cap');
      if step.More? {
        if |step.out| <= cap' {
          CapOnlyBounds(step.rest, step.out, cap, cap');
        } else {
          CapOnlyBounds(step.rest, step.out, cap, |step.out|);
        }
      }
    }
  }

  // ----- the compressor -----

  function ReadU32(src: seq<byte>, pos: nat): (v: nat)
    requires pos + 4 <= |src|
    ensures v < 0x1_0000_0000
  {
    src[pos] as int + 0x100 * src[pos + 1] as int + 0x1_0000 * src[pos + 2] as int + 0x100_0000 * src[pos + 3] as int
  }

  /** The `n` bytes from `at` on repeat those `offset` bytes earlier. */
  ghost predicate Repeats(src: seq<byte>, at: nat, offset: nat, n: nat)
    requires offset <= at && at + n <= |src|
  {
    forall k :: at <= k < at + n ==> src[k - offset] == src[k]
  }

  lemma {:induction false} ReadU32Injective(src: seq<byte>, p: nat, q: nat)
    requires p <= q && q + 4 <= |src|
    ensures ReadU32(src, p) == ReadU32(src, q) <==> Repeats(src, q, q - p, 4)
  {
    if ReadU32(src, p) == ReadU32(src, q) {
      assert src[p + 3] == src[q + 3];
      assert src[p + 2] == src[q + 2];
      assert src[p + 1] == src[q + 1];
    }
  }

  function Hash4(v: nat): (h: nat)
    ensures h < HASH_SIZE
  {
    (v * 0x9E37_79B1) % 0x1_0000_0000 / 0x10_0000
  }

  // ----- the sequences it chooses -----

  /** Positions before the cursor, or not yet set, for every hash. */
  ghost predicate IsTable(table: seq<nat>, ip: nat) {
    |table| == HASH_SIZE && forall h :: 0 <= h < HASH_SIZE ==> table[h] <= ip
  }

  ghost predicate IsMatch(src: seq<byte>, refPos: nat, ip: nat)
    requires refPos <= ip && ip + LAST_LITERALS < |src|
  {
    refPos < ip && ip - refPos <= 0xFFFF && Repeats(src, ip, ip - refPos, MIN_MATCH)
  }

  /** How far a match of at least `n` bytes goes on, leaving at least one byte of the input. */
  ghost function MatchLength(src: seq<byte>, refPos: nat, ip: nat, n: nat): (r: nat)
    requires refPos < ip && ip + n < |src|
    ensures n <= r && ip + r < |src|
    decreases |src| - ip - n
  {
    if ip + n < |src| - LAST_LITERALS + MIN_MATCH && src[refPos + n] == src[ip + n]
    then MatchLength(src, refPos, ip, n + 1) else n
  }

  /** The sequences chosen from `ip` on, with literals pending since `anchor`: at each position the one
      candidate the hash table offers is taken if it matches, and extended as far as it goes. */
  ghost function Parse(src: seq<byte>, table: seq<nat>, ip: nat, anchor: nat): seq<Sequence>
    requires IsTable(table, ip) && anchor <= ip <= |src|
    decreases |src| - ip
  {
    if ip + LAST_LITERALS >= |src| then [] else
    var h := Hash4(ReadU32(src, ip));
    var refPos := table[h];
    if IsMatch(src, refPos, ip) then
      var n := MatchLength(src, refPos, ip, MIN_MATCH);
      [Sequence(src[anchor..ip], ip - refPos, n - MIN_MATCH)] + Parse(src, table[h := ip], ip + n, ip + n)
    else
      Parse(src, table[h := ip], ip + 1, anchor)
  }

  lemma {:induction false} ParseEnd(src: seq<byte>, table: seq<nat>, ip: nat, anchor: nat)
    requires IsTable(table, ip) && anchor <= ip <= |src| <= ip + LAST_LITERALS
    ensures Parse(src, table, ip, anchor) == []
  {
  }

  lemma {:induction false} ParseMiss(src: seq<byte>, table: seq<nat>, ip: nat, anchor: nat)
    requires IsTable(table, ip) && anchor <= ip && ip + LAST_LITERALS < |src|
    requires !IsMatch(src, table[Hash4(ReadU32(src, ip))], ip)
    ensures Parse(src, table, ip, anchor) == Parse(src, table[Hash4(ReadU32(src, ip)) := ip], ip + 1, anchor)
  {
    hide Hash4, ReadU32, IsMatch;
  }

  lemma {:induction false} ParseHit(src: seq<byte>, table: seq<nat>, ip: nat, anchor: nat)
    requires IsTable(table, ip) && anchor <= ip && ip + LAST_LITERALS < |src|
    requires IsMatch(src, table[Hash4(ReadU32(src, ip))], ip)
    ensures var h := Hash4(ReadU32(src, ip)); var refPos := table[h];
            refPos < ip && ip - refPos <= 0xFFFF && Repeats(src, ip, ip - refPos, MIN_MATCH) &&
            var n := MatchLength(src, refPos, ip, MIN_MATCH);
            Parse(src, table, ip, anchor)
            == [Sequence(src[anchor..ip], ip - refPos, n - MIN_MATCH)] + Parse(src, table[h := ip], ip + n, ip + n)
  {
    hide Hash4, ReadU32, MatchLength, Repeats;
  }

  ghost function EmptyTable(): (table: seq<nat>)
    ensures IsTable(table, 0)
  {
    seq(HASH_SIZE, _ => 0)
  }

  /** `block` is the sequences chosen for `src`, and then the rest of it as literals. */
  ghost predicate IsPacked(src: seq<byte>, block: seq<byte>) {
    var qs := Parse(src, EmptyTable(), 0, 0);
    Expand(qs).Some? && |Expand(qs).value| <= |src|
    && block == BlockBytes(qs) + LastBytes(src[|Expand(qs).value|..])
  }

  ghost predicate AllEqual(src: seq<byte>) {
    forall i, j :: 0 <= i < |src| && 0 <= j < |src| ==> src[i] == src[j]
  }

  lemma {:induction false} MatchRunsOn(src: seq<byte>, refPos: nat, ip: nat, n: nat)
    requires AllEqual(src) && refPos < ip && ip + n < |src|
    ensures MatchLength(src, refPos, ip, n) == |src| - 1 - ip
    decreases |src| - ip - n
  {
    if ip + n < |src| - 1 { MatchRunsOn(src, refPos, ip, n + 1); }
  }

  /** A text of one repeated byte is a single literal and one reference to it. */
  lemma {:induction false} ParseAllEqual(src: seq<byte>)
    requires AllEqual(src) && |src| >= 7
    ensures Parse(src, EmptyTable(), 0, 0) == [Sequence(src[..1], 1, |src| - 6)]
  {
    hide Hash4, ReadU32, MatchLength;
    var t := EmptyTable();
    var h := Hash4(ReadU32(src, 0));
    assert t[h := 0] == t;
    MatchRunsOn(src, 0, 1, MIN_MATCH);
    var h' := Hash4(ReadU32(src, 1));
    assert Parse(src, t, 1, 0) == [Sequence(src[0..1], 1, |src| - 6)] + Parse(src, t[h' := 1], |src| - 1, |src| - 1);
  }

  /** Such a text is packed into six bytes and the extension of its length. */
  lemma {:induction false} PackedAllEqual(src: seq<byte>, block: seq<byte>)
    requires AllEqual(src) && |src| >= 7 && IsPacked(src, block)
    ensures |block| == 6 + |LengthBytes(|src| - 6)|
  {
    hide Parse;
    var q := Sequence(src[..1], 1, |src| - 6);
    ParseAllEqual(src);
    assert [q][..0] == [];
    assert BlockBytes([q]) == SequenceBytes(q);
    assert |Expand([q]).value| == |src| - 1;
  }

  // ----- the parse, without a hash table -----

  /** The latest of the visited positions whose four bytes have this hash, 0 if there is none. */
  ghost function Latest(src: seq<byte>, visited: seq<nat>, h: nat): nat
    requires forall i :: 0 <= i < |visited| ==> visited[i] + 4 <= |src|
  {
    if visited == [] then 0
    else if Hash4(ReadU32(src, visited[|visited| - 1])) == h then visited[|visited| - 1]
    else Latest(src, visited[..|visited| - 1], h)
  }

  ghost predicate AreVisited(src: seq<byte>, visited: seq<nat>, ip: nat) {
    forall i :: 0 <= i < |visited| ==> visited[i] < ip && visited[i] + 4 <= |src|
  }

  /** The table holds the latest position of every hash. */
  ghost predicate Records(src: seq<byte>, table: seq<nat>, visited: seq<nat>, ip: nat) {
    IsTable(table, ip) && AreVisited(src, visited, ip) && forall h :: 0 <= h < HASH_SIZE ==> table[h] == Latest(src, visited, h)
  }

  /** The four bytes at `ip` stand at `c` too, in reach of a two-byte offset. */
  ghost predicate Matches(src: seq<byte>, c: nat, ip: nat)
    requires ip + 4 <= |src|
  {
    c < ip && ip - c <= 65535 && src[c..c + 4] == src[ip..ip + 4]
  }

  /** The match `q`, taken at `ip` with its source at `c`, is as long as it can be. */
  ghost predicate TakenAt(src: seq<byte>, anchor: nat, ip: nat, c: nat, q: Sequence)
    requires c < ip
  {
    var n := q.extra + 4;
    anchor <= ip && ip + n < |src| && q.literals == src[anchor..ip] && q.offset == ip - c
    && src[c..c + n] == src[ip..ip + n]
    && (ip + n == |src| - 1 || src[c + n] != src[ip + n])
  }

  /** From position to position: the latest earlier position with the same hash is taken if its four
      bytes agree, as far as they do; otherwise the byte becomes a literal. The last five bytes are not
      looked up. */
  ghost predicate Greedy(src: seq<byte>, visited: seq<nat>, ip: nat, anchor: nat, qs: seq<Sequence>)
    requires AreVisited(src, visited, ip)
    decreases |src| - ip
  {
    if ip + 5 >= |src| then qs == []
    else
      var c := Latest(src, visited, Hash4(ReadU32(src, ip)));
      if Matches(src, c, ip)
      then qs != [] && TakenAt(src, anchor, ip, c, qs[0])
           && Greedy(src, visited + [ip], ip + qs[0].extra + 4, ip + qs[0].extra + 4, qs[1..])
      else Greedy(src, visited + [ip], ip + 1, anchor, qs)
  }

  lemma {:induction false} LatestAfter(src: seq<byte>, visited: seq<nat>, ip: nat, h: nat)
    requires AreVisited(src, visited, ip) && ip + 4 <= |src|
    ensures Latest(src, visited + [ip], h) == if Hash4(ReadU32(src, ip)) == h then ip else Latest(src, visited, h)
  {
    hide Hash4, ReadU32;
    assert (visited + [ip])[..|visited|] == visited;
  }

  lemma {:induction false} RecordsAfter(src: seq<byte>, table: seq<nat>, visited: seq<nat>, ip: nat, ip': nat)
    requires Records(src, table, visited, ip) && ip < ip' && ip + 4 <= |src|
    ensures Records(src, table[Hash4(ReadU32(src, ip)) := ip], visited + [ip], ip')
  {
    hide Hash4, ReadU32, Latest;
    forall h | 0 <= h < HASH_SIZE
      ensures table[Hash4(ReadU32(src, ip)) := ip][h] == Latest(src, visited + [ip], h)
    {
      LatestAfter(src, visited, ip, h);
    }
  }

  lemma {:induction false} MatchesIff(src: seq<byte>, c: nat, ip: nat)
    requires c <= ip && ip + LAST_LITERALS < |src|
    ensures IsMatch(src, c, ip) <==> Matches(src, c, ip)
  {
    if IsMatch(src, c, ip) { RepeatsSlices(src, c, ip, 4); }
    if Matches(src, c, ip) {
      forall k | ip <= k < ip + 4 ensures src[k - (ip - c)] == src[k] {
        assert src[c..c + 4][k - ip] == src[ip..ip + 4][k - ip];
      }
    }
  }

  lemma {:induction false} RepeatsSlices(src: seq<byte>, c: nat, ip: nat, n: nat)
    requires c <= ip && ip + n <= |src| && Repeats(src, ip, ip - c, n)
    ensures src[c..c + n] == src[ip..ip + n]
  {
    var a, b := src[c..c + n], src[ip..ip + n];
    forall k | 0 <= k < n ensures a[k] == b[k] { assert src[(ip + k) - (ip - c)] == src[ip + k]; }
  }

  /** A match ends where the bytes differ, or before the last byte. */
  lemma {:induction false} MatchEnds(src: seq<byte>, c: nat, ip: nat, n: nat)
    requires c < ip && ip + n < |src|
    ensures var m := MatchLength(src, c, ip, n); ip + m == |src| - 1 || src[c + m] != src[ip + m]
    decreases |src| - ip - n
  {
    if ip + n < |src| - LAST_LITERALS + MIN_MATCH && src[c + n] == src[ip + n] { MatchEnds(src, c, ip, n + 1); }
  }

  lemma {:induction false} TakenMatch(src: seq<byte>, anchor: nat, ip: nat, c: nat)
    requires anchor <= ip && c < ip && ip + LAST_LITERALS < |src| && Repeats(src, ip, ip - c, MIN_MATCH)
    ensures TakenAt(src, anchor, ip, c, Sequence(src[anchor..ip], ip - c, MatchLength(src, c, ip, MIN_MATCH) - MIN_MATCH))
  {
    hide MatchLength, Repeats;
    var n := MatchLength(src, c, ip, MIN_MATCH);
    MatchReaches(src, c, ip, MIN_MATCH, n);
    RepeatsSlices(src, c, ip, n);
    MatchEnds(src, c, ip, MIN_MATCH);
  }

  /** The sequences of the compressor are these: the hash table never hands out an older position or
      another match, and no match is missed, cut short or drawn out. */
  lemma {:induction false} ParseIsGreedy(src: seq<byte>, table: seq<nat>, visited: seq<nat>, ip: nat, anchor: nat)
    requires Records(src, table, visited, ip) && anchor <= ip <= |src|
    ensures Greedy(src, visited, ip, anchor, Parse(src, table, ip, anchor))
    decreases |src| - ip
  {
    hide Hash4, ReadU32, Latest, IsMatch, Matches, TakenAt, MatchLength, Parse, Repeats;
    if ip + LAST_LITERALS >= |src| {
      ParseEnd(src, table, ip, anchor);
    } else {
      var h := Hash4(ReadU32(src, ip));
      var c, table' := table[h], table[h := ip];
      MatchesIff(src, c, ip);
      if IsMatch(src, c, ip) {
        ParseHit(src, table, ip, anchor);
        var n := MatchLength(src, c, ip, MIN_MATCH);
        TakenMatch(src, anchor, ip, c);
        RecordsAfter(src, table, visited, ip, ip + n);
        ParseIsGreedy(src, table', visited + [ip], ip + n, ip + n);
        var q, rest := Sequence(src[anchor..ip], ip - c, n - MIN_MATCH), Parse(src, table', ip + n, ip + n);
        assert ([q] + rest)[1..] == rest && ([q] + rest)[0] == q;
      } else {
        ParseMiss(src, table, ip, anchor);
        RecordsAfter(src, table, visited, ip, ip + 1);
        ParseIsGreedy(src, table', visited + [ip], ip + 1, anchor);
      }
    }
  }

  lemma {:induction false} PackedIsGreedy(src: seq<byte>)
    ensures Greedy(src, [], 0, 0, Parse(src, EmptyTable(), 0, 0))
  {
    hide Parse, Greedy;
    ParseIsGreedy(src, EmptyTable(), [], 0, 0);
  }

  // ----- the literals at the end -----

  /** How much text a list of sequences stands for. */
  function TextLength(qs: seq<Sequence>): nat {
    if qs == [] then 0 else |qs[0].literals| + qs[0].extra + MIN_MATCH + TextLength(qs[1..])
  }

  lemma {:induction false} TextLengthLast(qs: seq<Sequence>)
    requires qs != []
    ensures var n := |qs| - 1; TextLength(qs) == TextLength(qs[..n]) + |qs[n].literals| + qs[n].extra + MIN_MATCH
    decreases qs
  {
    var n := |qs| - 1;
    if n == 0 {
      assert qs[1..] == [] && qs[..n] == [];
    } else {
      TextLengthLast(qs[1..]);
      assert qs[1..][..n - 1] == qs[..n][1..];
    }
  }

  lemma {:induction false} ExpandLength(qs: seq<Sequence>)
    requires Expand(qs).Some?
    ensures |Expand(qs).value| == TextLength(qs)
  {
    hide CopyMatch;
    if qs != [] {
      ExpandLength(qs[..|qs| - 1]);
      TextLengthLast(qs);
    }
  }

  /** The sequences end before the last byte of the text. */
  lemma {:induction false} ParseLength(src: seq<byte>, table: seq<nat>, ip: nat, anchor: nat)
    requires IsTable(table, ip) && anchor <= ip <= |src| && anchor < |src|
    ensures anchor + TextLength(Parse(src, table, ip, anchor)) < |src|
    decreases |src| - ip
  {
    hide Hash4, ReadU32, MatchLength, IsMatch, Parse;
    if ip + LAST_LITERALS >= |src| {
      ParseEnd(src, table, ip, anchor);
    } else {
      var h := Hash4(ReadU32(src, ip));
      var refPos, table' := table[h], table[h := ip];
      if IsMatch(src, refPos, ip) {
        ParseHit(src, table, ip, anchor);
        var n := MatchLength(src, refPos, ip, MIN_MATCH);
        ParseLength(src, table', ip + n, ip + n);
        var q, rest := Sequence(src[anchor..ip], ip - refPos, n - MIN_MATCH), Parse(src, table', ip + n, ip + n);
        assert ([q] + rest)[1..] == rest;
      } else {
        ParseMiss(src, table, ip, anchor);
        ParseLength(src, table', ip + 1, anchor);
      }
    }
  }

  /** The literals that a packed text ends with. */
  ghost function Tail(src: seq<byte>): int {
    |src| - TextLength(Parse(src, EmptyTable(), 0, 0))
  }

  /** A match goes on for at least `m` bytes exactly if that many repeat. */
  lemma {:induction false} MatchReaches(src: seq<byte>, refPos: nat, ip: nat, n: nat, m: nat)
    requires refPos < ip && ip + n < |src| && ip + m < |src| && Repeats(src, ip, ip - refPos, n)
    ensures MatchLength(src, refPos, ip, n) >= m <==> Repeats(src, ip, ip - refPos, m)
    decreases |src| - ip - n
  {
    if n < m {
      assert src[ip + n - (ip - refPos)] == src[refPos + n];
      if src[refPos + n] == src[ip + n] { MatchReaches(src, refPos, ip, n + 1, m); }
    }
  }

  /** Where the last match of the sequences begins, in a text whose first `anchor` bytes come before them. */
  function LastMatch(qs: seq<Sequence>, anchor: nat): (at: int)
    requires qs != []
  {
    anchor + TextLength(qs) - qs[|qs| - 1].extra - MIN_MATCH
  }

  /** The bytes from the last match on repeat into the last five of the text. */
  ghost predicate RepeatsIntoEnd(src: seq<byte>, qs: seq<Sequence>, anchor: nat) {
    qs != [] &&
    var at, d := LastMatch(qs, anchor), qs[|qs| - 1].offset;
    d <= at && at + LAST_LITERALS < |src| && Repeats(src, at, d, |src| - LAST_LITERALS + 1 - at)
  }

  /** The sequences reach into the last five bytes exactly if the text repeats that far from the last
      match on. */
  lemma {:induction false} ParseReaches(src: seq<byte>, table: seq<nat>, ip: nat, anchor: nat)
    requires IsTable(table, ip) && anchor <= ip <= |src| && anchor + LAST_LITERALS <= |src|
    ensures var qs := Parse(src, table, ip, anchor);
            anchor + TextLength(qs) + LAST_LITERALS > |src| <==> RepeatsIntoEnd(src, qs, anchor)
    decreases |src| - ip
  {
    hide Hash4, ReadU32, MatchLength, IsMatch, Parse, RepeatsIntoEnd, Repeats, TextLength;
    if ip + LAST_LITERALS >= |src| {
      ParseEnd(src, table, ip, anchor);
      NoneReaches(src, anchor);
    } else {
      var h := Hash4(ReadU32(src, ip));
      var refPos, table' := table[h], table[h := ip];
      if IsMatch(src, refPos, ip) {
        ParseHit(src, table, ip, anchor);
        var n := MatchLength(src, refPos, ip, MIN_MATCH);
        var q, rest := Sequence(src[anchor..ip], ip - refPos, n - MIN_MATCH), Parse(src, table', ip + n, ip + n);
        if ip + n + LAST_LITERALS <= |src| {
          ParseReaches(src, table', ip + n, ip + n);
        } else {
          ParseEnd(src, table', ip + n, ip + n);
        }
        if rest == [] {
          assert [q] + rest == [q];
          OneReaches(src, refPos, ip, anchor);
          NoneReaches(src, ip + n);
        } else {
          MoreReach(src, q, rest, anchor);
        }
      } else {
        ParseMiss(src, table, ip, anchor);
        ParseReaches(src, table', ip + 1, anchor);
      }
    }
  }

  lemma {:induction false} NoneReaches(src: seq<byte>, anchor: nat)
    ensures !RepeatsIntoEnd(src, [], anchor) && TextLength([]) == 0
  {
  }

  lemma {:induction false} OneReaches(src: seq<byte>, refPos: nat, ip: nat, anchor: nat)
    requires refPos < ip && anchor <= ip && ip + LAST_LITERALS < |src| && Repeats(src, ip, ip - refPos, MIN_MATCH)
    ensures var n := MatchLength(src, refPos, ip, MIN_MATCH);
            var qs := [Sequence(src[anchor..ip], ip - refPos, n - MIN_MATCH)];
            TextLength(qs) == ip - anchor + n
            && (RepeatsIntoEnd(src, qs, anchor) <==> ip + n + LAST_LITERALS > |src|)
  {
    hide MatchLength, Repeats;
    var n := MatchLength(src, refPos, ip, MIN_MATCH);
    var qs := [Sequence(src[anchor..ip], ip - refPos, n - MIN_MATCH)];
    assert qs[1..] == [];
    MatchReaches(src, refPos, ip, MIN_MATCH, |src| - LAST_LITERALS + 1 - ip);
  }

  lemma {:induction false} MoreReach(src: seq<byte>, q: Sequence, rest: seq<Sequence>, anchor: nat)
    requires rest != []
    ensures var next := anchor + |q.literals| + q.extra + MIN_MATCH;
            anchor + TextLength([q] + rest) == next + TextLength(rest)
            && (RepeatsIntoEnd(src, [q] + rest, anchor) <==> RepeatsIntoEnd(src, rest, next))
  {
    assert ([q] + rest)[1..] == rest;
  }

  /** A packed text that is not empty ends with a literal. One of five bytes or more ends with fewer
      than five literals if and only if its bytes, from the last match on, repeat into its last five. */
  lemma {:induction false} TailLiterals(src: seq<byte>, block: seq<byte>)
    requires src != [] && IsPacked(src, block)
    ensures 1 <= Tail(src) && src[|Expand(Parse(src, EmptyTable(), 0, 0)).value|..] == src[|src| - Tail(src)..]
    ensures |src| >= LAST_LITERALS ==>
              (Tail(src) < LAST_LITERALS <==> RepeatsIntoEnd(src, Parse(src, EmptyTable(), 0, 0), 0))
  {
    hide Parse, RepeatsIntoEnd;
    ParseLength(src, EmptyTable(), 0, 0);
    ExpandLength(Parse(src, EmptyTable(), 0, 0));
    if |src| >= LAST_LITERALS { ParseReaches(src, EmptyTable(), 0, 0); }
  }

  /** The family on which the five-literal rule fails most: one repeated byte leaves a single literal. */
  lemma {:induction false} TailAllEqual(src: seq<byte>)
    requires AllEqual(src) && |src| >= 7
    ensures Tail(src) == 1
  {
    hide Parse;
    ParseAllEqual(src);
    var q := Sequence(src[..1], 1, |src| - 6);
    assert [q][1..] == [] && |q.literals| == 1;
    assert TextLength([q]) == |src| - 1;
  }

  /** A back reference whose bytes agree with what follows the cursor extends the copied prefix. */
  lemma {:induction false} MatchExtendsPrefix(src: seq<byte>, at: nat, offset: nat, n: nat)
    requires 0 < offset <= at && at + n <= |src|
    requires Repeats(src, at, offset, n)
    ensures CopyMatch(src[..at], offset, n) == src[..at + n]
    decreases n
  {
    if n != 0 {
      assert src[..at] + [src[at - offset]] == src[..at + 1];
      MatchExtendsPrefix(src, at + 1, offset, n - 1);
    }
  }

  /** The number of bytes a length adds to the output besides its token. */
  lemma {:induction false} ExtensionLength(n: nat)
    ensures |Extension(n)| == n / 255 + 1
  {
    if n >= 255 { ExtensionLength(n - 255); }
  }

  lemma {:induction false} LengthBytesLength(n: nat)
    ensures |LengthBytes(n)| == if n < 15 then 0 else (n - 15) / 255 + 1
  {
    if n >= 15 { ExtensionLength(n - 15); }
  }

  method WriteBytes(dst: array<byte>, op0: nat, s: seq<byte>) returns (op: nat)
    requires op0 + |s| <= dst.Length
    modifies dst
    ensures op == op0 + |s|
    ensures dst[..op] == old(dst[..op0]) + s
  {
    op := op0 + |s|;
    forall i | 0 <= i < |s| { dst[op0 + i] := s[i]; }
  }

  method WriteExtension(dst: array<byte>, op0: nat, n: nat) returns (op: nat)
    requires op0 + |LengthBytes(n)| <= dst.Length
    modifies dst
    ensures op == op0 + |LengthBytes(n)|
    ensures dst[..op] == old(dst[..op0]) + LengthBytes(n)
  {
    op := op0;
    if n < 15 { return; }
    ghost var all := old(dst[..op0]) + Extension(n - 15);
    var rem := n - 15;
    while rem >= 255
      invariant op <= dst.Length && dst[..op] + Extension(rem) == all
    {
      Assoc(dst[..op], [255], Extension(rem - 255));
      op := WriteBytes(dst, op, [255]);
      rem := rem - 255;
    }
    op := WriteBytes(dst, op, [rem]);
  }

  lemma {:induction false} SequenceParts(start: seq<byte>, q: Sequence)
    requires q.offset < 0x10000
    ensures start + SequenceBytes(q)
         == start + [Nibble(|q.literals|) * 16 + Nibble(q.extra)] + LengthBytes(|q.literals|) + q.literals
            + [q.offset % 256, q.offset / 256] + LengthBytes(q.extra)
  {
    hide LengthBytes, Nibble;
    var token: seq<byte> := [Nibble(|q.literals|) * 16 + Nibble(q.extra)];
    var head := token + LengthBytes(|q.literals|) + q.literals;
    Assoc(start, head, MatchBytes(q.offset, q.extra));
    Assoc(start, token + LengthBytes(|q.literals|), q.literals);
    Assoc(start, token, LengthBytes(|q.literals|));
    Assoc(start + head, [q.offset % 256, q.offset / 256], LengthBytes(q.extra));
  }

  lemma {:induction false} SequenceSize(q: Sequence)
    requires q.offset < 0x10000
    ensures |SequenceBytes(q)| == 3 + |LengthBytes(|q.literals|)| + |q.literals| + |LengthBytes(q.extra)|
  {
    hide LengthBytes, Nibble;
  }

  method EmitSequence(ghost q: Sequence, literals: seq<byte>, extra: nat, offset: nat, dst: array<byte>, op0: nat)
      returns (op: nat)
    requires q == Sequence(literals, offset, extra) && 0 < offset < 0x10000
    requires op0 + |SequenceBytes(q)| <= dst.Length
    modifies dst
    ensures op == op0 + |SequenceBytes(q)|
    ensures dst[..op] == old(dst[..op0]) + SequenceBytes(q)
  {
    hide LengthBytes, Nibble, SequenceBytes;
    ghost var start := dst[..op0];
    SequenceSize(q);
    op := WriteBytes(dst, op0, [Nibble(|literals|) * 16 + Nibble(extra)]);
    op := WriteExtension(dst, op, |literals|);
    op := WriteBytes(dst, op, literals);
    op := WriteBytes(dst, op, [offset % 256, offset / 256]);
    op := WriteExtension(dst, op, extra);
    SequenceParts(start, q);
  }

  method EmitLastLiterals(literals: seq<byte>, dst: array<byte>, op0: nat) returns (op: nat)
    requires op0 + |LastBytes(literals)| <= dst.Length
    modifies dst
    ensures op == op0 + |LastBytes(literals)|
    ensures dst[..op] == old(dst[..op0]) + LastBytes(literals)
  {
    hide LengthBytes, Nibble;
    ghost var start := dst[..op0];
    op := WriteBytes(dst, op0, [Nibble(|literals|) * 16]);
    op := WriteExtension(dst, op, |literals|);
    op := WriteBytes(dst, op, literals);
    assert dst[..op] == start + LastBytes(literals);
  }

  /** A sequence never costs more than its text plus one byte in 255 of its literals. */
  lemma {:induction false} SequenceCost(q: Sequence)
    requires q.offset < 0x10000
    ensures 255 * (|SequenceBytes(q)| - |q.literals| - q.extra - MIN_MATCH) <= |q.literals|
  {
    LengthBytesLength(|q.literals|);
    LengthBytesLength(q.extra);
  }

  /** Look the four bytes at `ip` up in the hash table, recording `ip` as their latest position. */
  method Lookup(src: seq<byte>, table: array<nat>, ip: nat) returns (found: bool, refPos: nat)
    requires ip + LAST_LITERALS < |src| && IsTable(table[..], ip)
    modifies table
    ensures IsTable(table[..], ip)
    ensures table[..] == old(table[..])[Hash4(ReadU32(src, ip)) := ip]
    ensures refPos == old(table[..])[Hash4(ReadU32(src, ip))] <= ip
    ensures found <==> IsMatch(src, refPos, ip)
  {
    var v := ReadU32(src, ip);
    var h := Hash4(v);
    refPos := table[h];
    table[h] := ip;
    var offset := ip - refPos;
    found := offset > 0 && offset <= 0xFFFF && refPos < |src| - MIN_MATCH + 1 && ReadU32(src, refPos) == v;
    ReadU32Injective(src, refPos, ip);
  }

  /** Extend a match found at `ip` (with `refPos` its earlier copy) as far as the format allows. */
  method ExtendMatch(src: seq<byte>, refPos: nat, ip: nat) returns (matchLen: nat)
    requires refPos < ip && ip + LAST_LITERALS < |src|
    requires Repeats(src, ip, ip - refPos, MIN_MATCH)
    ensures MIN_MATCH <= matchLen && ip + matchLen < |src|
    ensures Repeats(src, ip, ip - refPos, matchLen)
    ensures matchLen == MatchLength(src, refPos, ip, MIN_MATCH)
  {
    matchLen := MIN_MATCH;
    while ip + matchLen < |src| - LAST_LITERALS + MIN_MATCH && src[refPos + matchLen] == src[ip + matchLen]
      invariant MIN_MATCH <= matchLen && ip + matchLen <= |src| - LAST_LITERALS + MIN_MATCH
      invariant Repeats(src, ip, ip - refPos, matchLen)
      invariant MatchLength(src, refPos, ip, matchLen) == MatchLength(src, refPos, ip, MIN_MATCH)
    {
      matchLen := matchLen + 1;
    }
  }

  /** `written` encodes the first `anchor` bytes of `src`, within the size bound. */
  ghost predicate Encodes(qs: seq<Sequence>, written: seq<byte>, src: seq<byte>, anchor: nat) {
    anchor <= |src|
    && Expand(qs) == Some(src[..anchor])
    && written == BlockBytes(qs)
    && 255 * (|written| - anchor) <= anchor
  }

  /** Decoding `block` into any buffer large enough gives `text`. */
  ghost predicate DecodesTo(block: seq<byte>, text: seq<byte>) {
    forall cap: nat :: |text| <= cap ==> Decode(block, [], cap) == Ok(text)
  }

  /** One more sequence at the end. */
  lemma {:induction false} ExpandMore(qs: seq<Sequence>, q: Sequence)
    requires Expand(qs).Some? && 0 < q.offset <= |Expand(qs).value| + |q.literals| && q.offset < 0x10000
    ensures Expand(qs + [q]) == Some(CopyMatch(Expand(qs).value + q.literals, q.offset, q.extra + MIN_MATCH))
    ensures BlockBytes(qs + [q]) == BlockBytes(qs) + SequenceBytes(q)
  {
    hide CopyMatch, SequenceBytes;
    assert (qs + [q])[..|qs|] == qs;
  }

  lemma {:induction false} EncodesMatch(qs: seq<Sequence>, written: seq<byte>, src: seq<byte>, anchor: nat, ip: nat, offset: nat, n: nat)
    requires Encodes(qs, written, src, anchor)
    requires anchor <= ip && 0 < offset <= ip && offset < 0x10000 && MIN_MATCH <= n && ip + n <= |src|
    requires Repeats(src, ip, offset, n)
    ensures var q := Sequence(src[anchor..ip], offset, n - MIN_MATCH);
            Encodes(qs + [q], written + SequenceBytes(q), src, ip + n)
  {
    hide CopyMatch, SequenceBytes, Expand, BlockBytes, Repeats;
    var q := Sequence(src[anchor..ip], offset, n - MIN_MATCH);
    assert src[..anchor] + q.literals == src[..ip];
    ExpandMore(qs, q);
    MatchExtendsPrefix(src, ip, offset, n);
    SequenceCost(q);
  }

  lemma {:induction false} EncodesAll(qs: seq<Sequence>, written: seq<byte>, src: seq<byte>, anchor: nat)
    requires Encodes(qs, written, src, anchor)
    ensures var block := written + LastBytes(src[anchor..]);
            |block| <= |src| + |src| / 255 + 16 && DecodesTo(block, src)
  {
    hide Decode, Expand, BlockBytes, LengthBytes;
    LengthBytesLength(|src| - anchor);
    assert src[..anchor] + src[anchor..] == src;
    forall cap: nat | |src| <= cap ensures Decode(written + LastBytes(src[anchor..]), [], cap) == Ok(src) {
      RoundTrip(qs, src[anchor..], cap);
    }
  }

  lemma {:induction false} EncodesNothing(src: seq<byte>)
    ensures Encodes([], [], src, 0)
  {
    assert src[..0] == [];
  }

  /** All sequences from `ip` on, after those already written, stand for a prefix of the text. */
  lemma {:induction false} ParseEncodes(src: seq<byte>, table: seq<nat>, ip: nat, anchor: nat, qs: seq<Sequence>, written: seq<byte>)
    requires IsTable(table, ip) && anchor <= ip <= |src| && Encodes(qs, written, src, anchor)
    ensures var all := qs + Parse(src, table, ip, anchor);
            Expand(all).Some? && Encodes(all, BlockBytes(all), src, |Expand(all).value|) && |written| <= |BlockBytes(all)|
    decreases |src| - ip
  {
    hide Hash4, ReadU32, MatchLength, Repeats, IsMatch, Parse, Expand, BlockBytes, SequenceBytes, Encodes;
    if ip + LAST_LITERALS >= |src| {
      ParseEnd(src, table, ip, anchor);
      assert qs + [] == qs;
      EncodedText(qs, written, src, anchor);
    } else {
      var h := Hash4(ReadU32(src, ip));
      var refPos, table' := table[h], table[h := ip];
      if IsMatch(src, refPos, ip) {
        ParseHit(src, table, ip, anchor);
        var n := MatchLength(src, refPos, ip, MIN_MATCH);
        var q := Sequence(src[anchor..ip], ip - refPos, n - MIN_MATCH);
        MatchReaches(src, refPos, ip, MIN_MATCH, n);
        EncodesMatch(qs, written, src, anchor, ip, ip - refPos, n);
        ParseEncodes(src, table', ip + n, ip + n, qs + [q], written + SequenceBytes(q));
        Assoc(qs, [q], Parse(src, table', ip + n, ip + n));
      } else {
        ParseMiss(src, table, ip, anchor);
        ParseEncodes(src, table', ip + 1, anchor, qs, written);
      }
    }
  }

  lemma {:induction false} EncodedText(qs: seq<Sequence>, written: seq<byte>, src: seq<byte>, anchor: nat)
    requires Encodes(qs, written, src, anchor)
    ensures Expand(qs).Some? && |Expand(qs).value| == anchor && written == BlockBytes(qs)
  {
    hide Expand, BlockBytes;
  }

  /** The block that a text is packed into. */
  ghost function Packed(src: seq<byte>): (block: seq<byte>)
    ensures IsPacked(src, block) && DecodesTo(block, src) && |block| <= |src| + |src| / 255 + 16
  {
    var qs := Parse(src, EmptyTable(), 0, 0);
    PackedParts(src);
    BlockBytes(qs) + LastBytes(src[|Expand(qs).value|..])
  }

  lemma {:induction false} PackedParts(src: seq<byte>)
    ensures var qs := Parse(src, EmptyTable(), 0, 0);
            Expand(qs).Some? && |Expand(qs).value| <= |src| &&
            var block := BlockBytes(qs) + LastBytes(src[|Expand(qs).value|..]);
            DecodesTo(block, src) && |block| <= |src| + |src| / 255 + 16
  {
    hide Parse, Expand, BlockBytes, LastBytes, Decode;
    var qs := Parse(src, EmptyTable(), 0, 0);
    EncodesNothing(src);
    ParseEncodes(src, EmptyTable(), 0, 0, [], []);
    assert [] + qs == qs;
    EncodesAll(qs, BlockBytes(qs), src, |Expand(qs).value|);
  }

  /** The match-finding loop: everything before `anchor` has been emitted as sequences. It stops short
      exactly if the sequences do not fit. */
  method EmitSequences(src: seq<byte>, dst: array<byte>)
      returns (ok: bool, anchor: nat, op: nat, ghost qs: seq<Sequence>)
    modifies dst
    ensures var goal := Parse(src, EmptyTable(), 0, 0);
            Expand(goal).Some? && (ok <==> |BlockBytes(goal)| <= dst.Length) && (ok ==> qs == goal)
    ensures ok ==> op <= dst.Length && Encodes(qs, dst[..op], src, anchor)
  {
    hide SequenceBytes, BlockBytes, Expand, ReadU32, Hash4, Repeats, MatchLength, Encodes, Parse, IsMatch, EmptyTable;
    var table := new nat[HASH_SIZE](_ => 0);
    ZeroTable(table[..]);
    ghost var goal := Parse(src, EmptyTable(), 0, 0);
    var ip := 0;
    anchor, op, qs := 0, 0, [];
    EncodesNothing(src);
    assert dst[..0] == [];
    var limit := if |src| > LAST_LITERALS then |src| - LAST_LITERALS else 0;
    while ip < limit
      invariant anchor <= ip <= |src| && op <= dst.Length && IsTable(table[..], ip)
      invariant Encodes(qs, dst[..op], src, anchor)
      invariant qs + Parse(src, table[..], ip, anchor) == goal
    {
      ghost var t := table[..];
      var found, refPos := Lookup(src, table, ip);
      if !found {
        ParseMiss(src, t, ip, anchor);
        ip := ip + 1;
        continue;
      }
      ParseHit(src, t, ip, anchor);
      var matchLen := ExtendMatch(src, refPos, ip);
      var q := Sequence(src[anchor..ip], ip - refPos, matchLen - MIN_MATCH);
      EncodesMatch(qs, dst[..op], src, anchor, ip, ip - refPos, matchLen);
      Assoc(qs, [q], Parse(src, table[..], ip + matchLen, ip + matchLen));
      if op + |SequenceBytes(q)| > dst.Length {
        ParseEncodes(src, table[..], ip + matchLen, ip + matchLen, qs + [q], dst[..op] + SequenceBytes(q));
        return false, anchor, op, qs;
      }
      op := EmitSequence(q, src[anchor..ip], matchLen - MIN_MATCH, ip - refPos, dst, op);
      qs := qs + [q];
      ip := ip + matchLen;
      anchor := ip;
    }
    ParseEnd(src, table[..], ip, anchor);
    assert qs + [] == qs;
    EncodedText(qs, dst[..op], src, anchor);
    ok := true;
  }

  lemma {:induction false} ZeroTable(table: seq<nat>)
    requires |table| == HASH_SIZE && forall h :: 0 <= h < HASH_SIZE ==> table[h] == 0
    ensures table == EmptyTable()
  {
  }

  /** Compress `src` into `dst` and return the number of bytes written. Decoding those bytes into
      any buffer that can hold the input gives the input back. */
  method Compress(src: seq<byte>, dst: array<byte>) returns (r: Compression)
    requires |src| < 0x1_0000_0000
    modifies dst
    ensures r == if dst.Length < MAX_COMPRESSED_SIZE then NoRoom
                 else if src == [] then Compressed(0)
                 else if |Packed(src)| <= dst.Length then Compressed(|Packed(src)|)
                 else OutOfBounds
    ensures r.Compressed? ==> r.size <= dst.Length && DecodesTo(dst[..r.size], src)
                              && (src != [] ==> dst[..r.size] == Packed(src))
  {
    hide Parse, Expand, BlockBytes, Decode, LastBytes;
    if dst.Length < MAX_COMPRESSED_SIZE { return NoRoom; }
    if |src| == 0 {
      DecodesNothing(dst[..0]);
      return Compressed(0);
    }
    ghost var qs;
    var ok, anchor, op;
    ok, anchor, op, qs := EmitSequences(src, dst);
    if !ok { return OutOfBounds; }
    EncodedText(qs, dst[..op], src, anchor);
    if op + |LastBytes(src[anchor..])| > dst.Length { return OutOfBounds; }
    op := EmitLastLiterals(src[anchor..], dst, op);
    return Compressed(op);
  }

  lemma {:induction false} DecodesNothing(block: seq<byte>)
    requires block == []
    ensures DecodesTo(block, [])
  {
  }

  // ----- the decompressor -----

  /** The extension loop: reads from `ip`, returning the sum and the new cursor. */
  method ReadExtensionBytes(src: seq<byte>, ip0: nat) returns (n: nat, ip: nat)
    requires ip0 <= |src|
    ensures ip0 <= ip <= |src| && (n, src[ip..]) == ReadExtension(src[ip0..])
  {
    n, ip := 0, ip0;
    while ip < |src|
      invariant ip0 <= ip <= |src|
      invariant var (m, rest) := ReadExtension(src[ip..]); (n + m, rest) == ReadExtension(src[ip0..])
    {
      var extra := src[ip];
      assert src[ip..][1..] == src[ip + 1..];
      ip := ip + 1;
      n := n + extra;
      if extra != 255 { return; }
    }
  }

  method ReadLengthBytes(nibble: nat, src: seq<byte>, ip0: nat) returns (n: nat, ip: nat)
    requires ip0 <= |src|
    ensures ip0 <= ip <= |src| && (n, src[ip..]) == ReadLength(nibble, src[ip0..])
  {
    n, ip := nibble, ip0;
    if n == 15 {
      var more;
      more, ip := ReadExtensionBytes(src, ip0);
      n := n + more;
    }
  }

  /** The byte-by-byte match copy: correct also when source and target overlap. */
  method CopyMatchBytes(dst: array<byte>, op: nat, offset: nat, n: nat)
    requires 0 < offset <= op && op + n <= dst.Length
    modifies dst
    ensures dst[..op + n] == CopyMatch(old(dst[..op]), offset, n)
  {
    for i := 0 to n
      invariant CopyMatch(dst[..op + i], offset, n - i) == CopyMatch(old(dst[..op]), offset, n)
    {
      ghost var done := dst[..op + i];
      dst[op + i] := dst[op - offset + i];
      assert dst[..op + i + 1] == done + [done[|done| - offset]];
    }
  }

  datatype Outcome = Finished(result: Result<nat>) | Continue(ip: nat, op: nat)

  /** `r` reports `step`, with the text so far in `dst`. */
  ghost predicate Reports(r: Outcome, step: Step, src: seq<byte>, dst: array<byte>)
    reads dst
  {
    match step
    case More(rest, out) =>
      r.Continue? && r.ip <= |src| && rest == src[r.ip..] && r.op <= dst.Length && out == dst[..r.op]
    case Stop(Ok(text)) => r == Finished(Ok(|text|)) && |text| <= dst.Length && dst[..|text|] == text
    case Stop(BufferTooSmall) => r == Finished(BufferTooSmall)
    case Stop(CorruptInput) => r == Finished(CorruptInput)
  }

  method DecompressMatch(nibble: nat, src: seq<byte>, ip0: nat, dst: array<byte>, op: nat) returns (r: Outcome)
    requires ip0 <= |src| && op <= dst.Length
    modifies dst
    ensures Reports(r, DecodeMatch(nibble, src[ip0..], old(dst[..op]), dst.Length), src, dst)
  {
    if ip0 + 2 > |src| { return Finished(CorruptInput); }
    var offset := src[ip0] as int + 256 * src[ip0 + 1] as int;
    assert src[ip0..][2..] == src[ip0 + 2..];
    if offset == 0 || op < offset { return Finished(CorruptInput); }
    var extra, ip := ReadLengthBytes(nibble, src, ip0 + 2);
    if op + extra + MIN_MATCH > dst.Length { return Finished(BufferTooSmall); }
    CopyMatchBytes(dst, op, offset, extra + MIN_MATCH);
    return Continue(ip, op + extra + MIN_MATCH);
  }

  /** One turn of the decoder's loop. */
  method DecompressOne(src: seq<byte>, ip0: nat, dst: array<byte>, op0: nat) returns (r: Outcome)
    requires ip0 < |src| && op0 <= dst.Length
    modifies dst
    ensures Reports(r, DecodeOne(src[ip0..], old(dst[..op0]), dst.Length), src, dst)
  {
    hide DecodeMatch, ReadLength;
    var token := src[ip0];
    assert src[ip0..][1..] == src[ip0 + 1..];
    var litLen, ip := ReadLengthBytes(token / 16, src, ip0 + 1);
    if op0 + litLen > dst.Length { return Finished(BufferTooSmall); }
    if ip + litLen > |src| { return Finished(CorruptInput); }
    var op := WriteBytes(dst, op0, src[ip..ip + litLen]);
    assert src[ip..][..litLen] == src[ip..ip + litLen] && src[ip..][litLen..] == src[ip + litLen..];
    if ip + litLen >= |src| { return Finished(Ok(op)); }
    r := DecompressMatch(token % 16, src, ip + litLen, dst, op);
  }

  /** Decompress `src` into `dst`: the result, its error cases and the bytes written are `Decode`'s. */
  method Decompress(src: seq<byte>, dst: array<byte>) returns (r: Result<nat>)
    modifies dst
    ensures match Decode(src, [], dst.Length)
            case Ok(text) => r == Ok(|text|) && |text| <= dst.Length && dst[..|text|] == text
            case BufferTooSmall => r == BufferTooSmall
            case CorruptInput => r == CorruptInput
  {
    var ip, op: nat := 0, 0;
    assert src[0..] == src;
    while ip < |src|
      invariant ip <= |src| && op <= dst.Length
      invariant Decode(src[ip..], dst[..op], dst.Length) == Decode(src, [], dst.Length)
      decreases |src| - ip
    {
      var turn := DecompressOne(src, ip, dst, op);
      match turn {
        case Finished(result) => return result;
        case Continue(ip', op') => ip, op := ip', op';
      }
    }
    return Ok(op);
  }

  /** The pair: whatever `Compress` writes, `Decompress` turns back into the page. */
  method PageRoundTrip(page: seq<byte>, packed: array<byte>, out: array<byte>) returns (n: nat, r: Result<nat>)
    requires |page| <= PAGE_SIZE && MAX_COMPRESSED_SIZE <= packed.Length && |page| <= out.Length && packed != out
    modifies packed, out
    ensures n <= MAX_COMPRESSED_SIZE
    ensures r == Ok(|page|) && out[..|page|] == page
  {
    var c := Compress(page, packed);
    n := c.size;
    r := Decompress(packed[..n], out);
  }
}
