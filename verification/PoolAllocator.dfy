/**
 The user-space pool allocator: eight size classes, each with a free list threaded through the first
 word of its free blocks, carved out of arenas that the kernel maps; larger requests are mapped
 directly behind a header. The spin lock makes each operation one atomic step.

 Memory is a map from addresses to the word that starts there. The kernel's answer to `mmap` is a parameter: it may fail,
 and otherwise returns a page-aligned region apart from everything mapped so far.
 */
module PoolAllocator {

  import opened Arithmetic
  import opened Bytes

  const NULL := 0
  const PAGE := 4096
  const CLASSES: seq<nat> := [16, 32, 64, 128, 256, 512, 1024, 2048]
  const HEADER := 16

  function Size(c: nat): (r: nat)
    requires c < 8
    ensures 16 <= r <= 2048 && r % 16 == 0 && PAGE % r == 0
  {
    CLASSES[c]
  }

  function ArenaSize(c: nat): nat
    requires c < 8
  {
    if Size(c) >= 1024 then Size(c) * 8 else PAGE
  }

  function Count(c: nat): (n: nat)
    requires c < 8
    ensures n >= 1 && n * Size(c) == ArenaSize(c)
  {
    ArenaSize(c) / Size(c)
  }

  /** The smallest class that holds `size` bytes. */
  function ClassFor(size: nat): (r: Option<nat>)
    ensures r == None <==> size > 2048
    ensures r.Some? ==> r.value < 8 && size <= Size(r.value) && (r.value > 0 ==> Size(r.value - 1) < size)
  {
    if size <= 16 then Some(0) else if size <= 32 then Some(1) else if size <= 64 then Some(2)
    else if size <= 128 then Some(3) else if size <= 256 then Some(4) else if size <= 512 then Some(5)
    else if size <= 1024 then Some(6) else if size <= 2048 then Some(7) else None
  }

  type Mem = map<nat, nat>

  function Load(m: Mem, a: nat): nat {
    if a in m then m[a] else 0
  }

  // ----- what has been carved -----

  datatype Arena = Arena(base: nat, cls: nat)

  /** `a` is block number `i` of arena `k`, of class `c`. */
  predicate BlockAt(arenas: seq<Arena>, k: int, i: int, a: nat, c: nat) {
    0 <= k < |arenas| && arenas[k].cls == c < 8 && 0 <= i < Count(c) && a == arenas[k].base + i * Size(c)
  }

  ghost predicate Carved(arenas: seq<Arena>, a: nat, c: nat) {
    exists k, i :: BlockAt(arenas, k, i, a, c)
  }

  predicate Apart(a: nat, n: nat, b: nat, m: nat) {
    a + n <= b || b + m <= a
  }

  /** Arenas and large mappings are page-aligned, away from null, and apart from each other. */
  ghost predicate RegionsOk(arenas: seq<Arena>, larges: map<nat, nat>) {
    (forall k :: 0 <= k < |arenas| ==> arenas[k].cls < 8 && arenas[k].base > 0 && arenas[k].base % PAGE == 0)
    && (forall j, k :: 0 <= j < k < |arenas| ==>
          Apart(arenas[j].base, ArenaSize(arenas[j].cls), arenas[k].base, ArenaSize(arenas[k].cls)))
    && (forall b :: b in larges ==> b > 0 && b % PAGE == 0 && larges[b] >= HEADER)
    && (forall b, b' :: b in larges && b' in larges && b != b' ==> Apart(b, larges[b], b', larges[b']))
    && (forall b, k :: b in larges && 0 <= k < |arenas| ==>
          Apart(b, larges[b], arenas[k].base, ArenaSize(arenas[k].cls)))
  }

  /** The index arithmetic of a class, by cases on its constant size. */
  lemma {:induction false} Multiple(i: int, j: int, c: nat)
    requires i < j && c < 8
    ensures i * Size(c) + Size(c) <= j * Size(c)
  {
    if c == 0 { assert Size(c) == 16; }
    else if c == 1 { assert Size(c) == 32; }
    else if c == 2 { assert Size(c) == 64; }
    else if c == 3 { assert Size(c) == 128; }
    else if c == 4 { assert Size(c) == 256; }
    else if c == 5 { assert Size(c) == 512; }
    else if c == 6 { assert Size(c) == 1024; }
    else { assert Size(c) == 2048; }
  }

  lemma {:induction false} MultipleAligned(base: nat, i: nat, c: nat)
    requires c < 8 && base % PAGE == 0
    ensures (base + i * Size(c)) % Size(c) == 0 && (base + i * Size(c)) % 8 == 0
  {
    var m := Size(c);
    var q, n, e := base / PAGE, PAGE / m, m / 8;
    assert base == q * PAGE && PAGE == n * m && m == e * 8;
    assert base == (q * n) * m;
    assert base + i * m == (q * n + i) * m;
    Remainder(q * n + i, m, 0);
    assert (q * n + i) * m == ((q * n + i) * e) * 8;
    Remainder((q * n + i) * e, 8, 0);
  }

  lemma {:induction false} BlockInArena(arenas: seq<Arena>, k: int, i: int, a: nat, c: nat)
    requires BlockAt(arenas, k, i, a, c)
    ensures arenas[k].base <= a && a + Size(c) <= arenas[k].base + ArenaSize(c)
  {
    Multiple(i, Count(c), c);
    if i > 0 { Multiple(0, i, c); }
  }

  /** Two carved blocks are the same block or share no byte. */
  lemma {:induction false} BlocksApart(arenas: seq<Arena>, larges: map<nat, nat>, a: nat, c: nat, b: nat, d: nat)
    requires RegionsOk(arenas, larges) && Carved(arenas, a, c) && Carved(arenas, b, d)
    ensures c < 8 && d < 8 && if a == b then c == d else Apart(a, Size(c), b, Size(d))
  {
    var k, i :| BlockAt(arenas, k, i, a, c);
    var l, j :| BlockAt(arenas, l, j, b, d);
    BlockInArena(arenas, k, i, a, c);
    BlockInArena(arenas, l, j, b, d);
    if k == l {
      if i < j { Multiple(i, j, c); }
      if j < i { Multiple(j, i, c); }
    } else {
      assert k < l ==> Apart(arenas[k].base, ArenaSize(c), arenas[l].base, ArenaSize(d));
      assert l < k ==> Apart(arenas[l].base, ArenaSize(d), arenas[k].base, ArenaSize(c));
    }
  }

  /** A carved block is aligned to its own size and apart from every large mapping. */
  lemma {:induction false} BlockFacts(arenas: seq<Arena>, larges: map<nat, nat>, a: nat, c: nat)
    requires RegionsOk(arenas, larges) && Carved(arenas, a, c)
    ensures c < 8 && a > 0 && a % Size(c) == 0 && a % 8 == 0
    ensures forall b :: b in larges ==> Apart(b, larges[b], a, Size(c))
  {
    var k, i :| BlockAt(arenas, k, i, a, c);
    BlockInArena(arenas, k, i, a, c);
    MultipleAligned(arenas[k].base, i, c);
  }

  // ----- free lists -----

  /** Following the first words from `head` visits the blocks `l`, then null. */
  predicate Chain(m: Mem, head: nat, l: seq<nat>)
    decreases l
  {
    if l == [] then head == NULL
    else head == l[0] && head != NULL && Chain(m, Load(m, head), l[1..])
  }

  predicate NoDup(l: seq<nat>) {
    forall i, j :: 0 <= i < j < |l| ==> l[i] != l[j]
  }

  lemma {:induction false} ChainFrame(m: Mem, m': Mem, head: nat, l: seq<nat>)
    requires Chain(m, head, l) && forall a :: a in l ==> Load(m', a) == Load(m, a)
    ensures Chain(m', head, l)
    decreases l
  {
    if l != [] { ChainFrame(m, m', Load(m, head), l[1..]); }
  }

  /** The bookkeeping the proof keeps: free lists, arenas, live blocks with their class, and large mappings. */
  datatype Book = Book(lists: seq<seq<nat>>, arenas: seq<Arena>, live: map<nat, nat>, larges: map<nat, nat>)

  ghost predicate ListsOk(k: Book) {
    |k.lists| == 8
    && (forall c :: 0 <= c < 8 ==> NoDup(k.lists[c]))
    && (forall c, a :: 0 <= c < 8 && a in k.lists[c] ==> Carved(k.arenas, a, c) && a !in k.live)
  }

  ghost predicate AllListed(k: Book) {
    |k.lists| == 8
    && (forall c, a :: 0 <= c < 8 && Carved(k.arenas, a, c) && a !in k.live ==> a in k.lists[c])
  }

  /** Live blocks and free lists partition what has been carved. */
  ghost predicate Partition(k: Book) {
    ListsOk(k) && AllListed(k) && forall a :: a in k.live ==> Carved(k.arenas, a, k.live[a])
  }

  ghost predicate Inv(heads: seq<nat>, m: Mem, k: Book) {
    |heads| == 8 && RegionsOk(k.arenas, k.larges) && Partition(k)
    && (forall c :: 0 <= c < 8 ==> Chain(m, heads[c], k.lists[c]))
    && (forall b :: b in k.larges ==> Load(m, b) == k.larges[b])
  }

  /** Taking the first block off a free list. */
  function Popped(k: Book, c: nat): Book
    requires c < |k.lists| && k.lists[c] != []
  {
    k.(lists := k.lists[c := k.lists[c][1..]], live := k.live[k.lists[c][0] := c])
  }

  lemma {:induction false} OneClass(k: Book, a: nat, c: nat)
    requires RegionsOk(k.arenas, k.larges) && Carved(k.arenas, a, c)
    ensures forall d: nat :: Carved(k.arenas, a, d) ==> d == c
  {
    forall d: nat | Carved(k.arenas, a, d) ensures d == c {
      BlocksApart(k.arenas, k.larges, a, c, a, d);
    }
  }

  lemma {:induction false} PopPartition(k: Book, c: nat)
    requires RegionsOk(k.arenas, k.larges) && Partition(k) && c < 8 && k.lists[c] != []
    ensures Partition(Popped(k, c))
  {
    hide Carved, RegionsOk;
    var a, l := k.lists[c][0], k.lists[c];
    assert a in l;
    OneClass(k, a, c);
    TailMembers(l);
    var k' := Popped(k, c);
    forall d, b | 0 <= d < 8 && b in k'.lists[d] ensures Carved(k.arenas, b, d) && b !in k'.live {
      assert b in k.lists[d];
    }
    forall d, b | 0 <= d < 8 && Carved(k.arenas, b, d) && b !in k'.live ensures b in k'.lists[d] {
      assert b in k.lists[d];
    }
  }

  lemma {:induction false} TailMembers(l: seq<nat>)
    requires l != [] && NoDup(l)
    ensures NoDup(l[1..]) && l[0] !in l[1..]
    ensures forall b :: b in l <==> b == l[0] || b in l[1..]
  {
    assert l == [l[0]] + l[1..];
  }

  /** Putting a live block back in front of its list. */
  function Pushed(k: Book, a: nat): Book
    requires a in k.live && k.live[a] < |k.lists|
  {
    var c := k.live[a];
    k.(lists := k.lists[c := [a] + k.lists[c]], live := k.live - {a})
  }

  lemma {:induction false} PushPartition(k: Book, a: nat)
    requires RegionsOk(k.arenas, k.larges) && Partition(k) && a in k.live
    ensures k.live[a] < 8 && Partition(Pushed(k, a))
  {
    hide ListsOk, AllListed, RegionsOk, Carved;
    var c := k.live[a];
    BlockFacts(k.arenas, k.larges, a, c);
    PushLists(k, a);
    PushListed(k, a);
  }

  lemma {:induction false} PushLists(k: Book, a: nat)
    requires ListsOk(k) && a in k.live && k.live[a] < 8 && Carved(k.arenas, a, k.live[a])
    ensures ListsOk(Pushed(k, a))
  {
    hide Carved;
    var c, k' := k.live[a], Pushed(k, a);
    assert forall b :: b in k'.lists[c] <==> b == a || b in k.lists[c];
    assert a !in k.lists[c];
  }

  lemma {:induction false} PushListed(k: Book, a: nat)
    requires RegionsOk(k.arenas, k.larges) && AllListed(k) && a in k.live && k.live[a] < 8 && Carved(k.arenas, a, k.live[a])
    ensures AllListed(Pushed(k, a))
  {
    hide Carved, RegionsOk;
    var c, k' := k.live[a], Pushed(k, a);
    OneClass(k, a, c);
    assert forall b :: b in k'.lists[c] <==> b == a || b in k.lists[c];
    forall d, b | 0 <= d < 8 && Carved(k.arenas, b, d) && b !in k'.live ensures b in k'.lists[d] {
      if b == a { assert d == c; } else { assert b in k.lists[d]; }
    }
  }

  lemma {:induction false} PopInv(heads: seq<nat>, m: Mem, k: Book, c: nat)
    requires Inv(heads, m, k) && c < 8 && heads[c] != NULL
    ensures k.lists[c] != [] && k.lists[c][0] == heads[c] && Inv(heads[c := Load(m, heads[c])], m, Popped(k, c))
  {
    assert Chain(m, heads[c], k.lists[c]);
    PopPartition(k, c);
  }

  /** Nothing has changed but words that share a byte with the `n` bytes at `a`. */
  ghost predicate ChangedOnly(m: Mem, m': Mem, a: nat, n: nat) {
    forall x :: Apart(x, 8, a, n) ==> Load(m', x) == Load(m, x)
  }

  /** Whatever a program writes inside a block it holds, it disturbs no list and no header. */
  lemma {:induction false} WriteInv(heads: seq<nat>, m: Mem, m': Mem, k: Book, a: nat)
    requires Inv(heads, m, k) && a in k.live && k.live[a] < 8 && ChangedOnly(m, m', a, Size(k.live[a]))
    ensures Inv(heads, m', k)
  {
    forall c | 0 <= c < 8 ensures Chain(m', heads[c], k.lists[c]) {
      forall b | b in k.lists[c] ensures Load(m', b) == Load(m, b) {
        BlocksApart(k.arenas, k.larges, a, k.live[a], b, c);
      }
      ChainFrame(m, m', heads[c], k.lists[c]);
    }
    BlockFacts(k.arenas, k.larges, a, k.live[a]);
  }

  /** The same for a large mapping, behind its header. */
  lemma {:induction false} WriteLargeInv(heads: seq<nat>, m: Mem, m': Mem, k: Book, base: nat)
    requires Inv(heads, m, k) && base in k.larges && k.larges[base] >= HEADER
    requires ChangedOnly(m, m', base + HEADER, k.larges[base] - HEADER)
    ensures Inv(heads, m', k)
  {
    forall c | 0 <= c < 8 ensures Chain(m', heads[c], k.lists[c]) {
      forall b | b in k.lists[c] ensures Load(m', b) == Load(m, b) {
        BlockFacts(k.arenas, k.larges, b, c);
        assert Apart(base, k.larges[base], b, Size(c));
      }
      ChainFrame(m, m', heads[c], k.lists[c]);
    }
    forall b | b in k.larges ensures Load(m', b) == k.larges[b] {
      assert b != base ==> Apart(b, k.larges[b], base, k.larges[base]);
      assert k.larges[b] >= HEADER && Apart(b, 8, base + HEADER, k.larges[base] - HEADER);
    }
  }

  lemma {:induction false} PushInv(heads: seq<nat>, m: Mem, k: Book, a: nat)
    requires Inv(heads, m, k) && a in k.live
    ensures k.live[a] < 8 && Inv(heads[k.live[a] := a], m[a := heads[k.live[a]]], Pushed(k, a))
  {
    var c := k.live[a];
    BlockFacts(k.arenas, k.larges, a, c);
    WriteInv(heads, m, m[a := heads[c]], k, a);
    PushPartition(k, a);
    var k' := Pushed(k, a);
    assert k'.lists[c][1..] == k.lists[c];
  }

  // ----- carving an arena -----

  /** The kernel's contract: a page-aligned region apart from everything mapped. */
  ghost predicate FreshRegion(k: Book, base: nat, len: nat) {
    base > 0 && base % PAGE == 0
    && (forall i :: 0 <= i < |k.arenas| ==>
          k.arenas[i].cls < 8 && Apart(k.arenas[i].base, ArenaSize(k.arenas[i].cls), base, len))
    && (forall b :: b in k.larges ==> Apart(b, k.larges[b], base, len))
  }

  function Block(base: nat, c: nat, i: nat): nat
    requires c < 8
  {
    base + i * Size(c)
  }

  function ArenaBlocks(base: nat, c: nat): (l: seq<nat>)
    requires c < 8
    ensures |l| == Count(c)
  {
    seq(Count(c), i requires 0 <= i => Block(base, c, i))
  }

  function Refilled(k: Book, c: nat, base: nat): Book
    requires c < 8 && c < |k.lists|
  {
    k.(lists := k.lists[c := ArenaBlocks(base, c)], arenas := k.arenas + [Arena(base, c)])
  }

  /** What the first word of block `i` of an arena has to be. */
  function NextOf(base: nat, c: nat, i: nat): nat
    requires c < 8
  {
    if i + 1 < Count(c) then Block(base, c, i + 1) else NULL
  }

  /** The first words of an arena's blocks link them in order, and no other word has changed. */
  ghost predicate LinkedArena(m: Mem, m': Mem, base: nat, c: nat, n: nat)
    requires c < 8
  {
    (forall i :: 0 <= i < n ==> Load(m', Block(base, c, i)) == NextOf(base, c, i))
    && (forall a: nat :: (a < base || a >= base + ArenaSize(c)) ==> Load(m', a) == Load(m, a))
  }

  lemma {:induction false} LinkStep(m: Mem, m': Mem, base: nat, c: nat, i: nat)
    requires c < 8 && i < Count(c) && LinkedArena(m, m', base, c, i)
    ensures LinkedArena(m, m'[Block(base, c, i) := NextOf(base, c, i)], base, c, i + 1)
  {
    var m'' := m'[Block(base, c, i) := NextOf(base, c, i)];
    forall j | 0 <= j < i ensures Load(m'', Block(base, c, j)) == Load(m', Block(base, c, j)) { Multiple(j, i, c); }
    assert BlockAt([Arena(base, c)], 0, i, Block(base, c, i), c);
    BlockInArena([Arena(base, c)], 0, i, Block(base, c, i), c);
    forall a: nat | a < base || a >= base + ArenaSize(c) ensures Load(m'', a) == Load(m', a) { }
  }

  lemma {:induction false} LinkStart(m: Mem, base: nat, c: nat)
    requires c < 8
    ensures LinkedArena(m, m, base, c, 0)
  {
  }

  lemma {:induction false} ArenaChain(m: Mem, m': Mem, base: nat, c: nat, i: nat)
    requires c < 8 && base > 0 && LinkedArena(m, m', base, c, Count(c)) && i < Count(c)
    ensures Chain(m', Block(base, c, i), ArenaBlocks(base, c)[i..])
    decreases Count(c) - i
  {
    var l := ArenaBlocks(base, c);
    assert l[i] == Block(base, c, i) && Load(m', l[i]) == NextOf(base, c, i);
    assert l[i..][0] == l[i] && l[i..][1..] == l[i + 1..];
    if i + 1 < Count(c) {
      ArenaChain(m, m', base, c, i + 1);
    } else {
      assert l[i + 1..] == [];
    }
  }

  lemma {:induction false} CarvedGrows(arenas: seq<Arena>, base: nat, c: nat, a: nat, d: nat)
    requires c < 8
    ensures Carved(arenas + [Arena(base, c)], a, d) <==> Carved(arenas, a, d) || (d == c && a in ArenaBlocks(base, c))
  {
    var as' := arenas + [Arena(base, c)];
    if Carved(arenas, a, d) {
      var k, i :| BlockAt(arenas, k, i, a, d);
      assert BlockAt(as', k, i, a, d);
    }
    if d == c && a in ArenaBlocks(base, c) {
      var i :| 0 <= i < Count(c) && a == ArenaBlocks(base, c)[i];
      assert BlockAt(as', |arenas|, i, a, d);
    }
    if Carved(as', a, d) && !Carved(arenas, a, d) {
      var k, i :| BlockAt(as', k, i, a, d);
      assert !BlockAt(arenas, k, i, a, d);
      assert ArenaBlocks(base, c)[i] == a;
    }
  }

  lemma {:induction false} RefillRegions(k: Book, c: nat, base: nat)
    requires RegionsOk(k.arenas, k.larges) && c < 8 && FreshRegion(k, base, ArenaSize(c))
    ensures RegionsOk(k.arenas + [Arena(base, c)], k.larges)
  {
  }

  lemma {:induction false} NewBlockNotCarved(k: Book, c: nat, base: nat, i: nat, d: nat)
    requires RegionsOk(k.arenas, k.larges) && c < 8 && FreshRegion(k, base, ArenaSize(c)) && i < Count(c)
    ensures !Carved(k.arenas, Block(base, c, i), d)
  {
    var a := Block(base, c, i);
    assert BlockAt([Arena(base, c)], 0, i, a, c);
    BlockInArena([Arena(base, c)], 0, i, a, c);
    forall j, n | BlockAt(k.arenas, j, n, a, d) ensures false {
      BlockInArena(k.arenas, j, n, a, d);
    }
  }

  lemma {:induction false} RefillPartition(k: Book, c: nat, base: nat)
    requires RegionsOk(k.arenas, k.larges) && Partition(k) && c < 8 && k.lists[c] == []
    requires FreshRegion(k, base, ArenaSize(c))
    ensures Partition(Refilled(k, c, base))
  {
    hide ListsOk, AllListed, RegionsOk, FreshRegion, Carved, ArenaBlocks;
    RefillLists(k, c, base);
    RefillListed(k, c, base);
    var k' := Refilled(k, c, base);
    forall a | a in k.live ensures Carved(k'.arenas, a, k.live[a]) { CarvedGrows(k.arenas, base, c, a, k.live[a]); }
  }

  lemma {:induction false} RefillLists(k: Book, c: nat, base: nat)
    requires RegionsOk(k.arenas, k.larges) && Partition(k) && c < 8 && FreshRegion(k, base, ArenaSize(c))
    ensures |k.lists| == 8 && ListsOk(Refilled(k, c, base))
  {
    hide AllListed, RegionsOk, FreshRegion, Carved, ArenaBlocks;
    NewBlocks(k, c, base);
    var k' := Refilled(k, c, base);
    forall d, a | 0 <= d < 8 && a in k'.lists[d] ensures Carved(k'.arenas, a, d) && a !in k.live {
      CarvedGrows(k.arenas, base, c, a, d);
    }
  }

  lemma {:induction false} RefillListed(k: Book, c: nat, base: nat)
    requires AllListed(k) && c < 8 && k.lists[c] == []
    ensures AllListed(Refilled(k, c, base))
  {
    hide Carved, ArenaBlocks;
    var k' := Refilled(k, c, base);
    forall d, a | 0 <= d < 8 && Carved(k'.arenas, a, d) && a !in k.live ensures a in k'.lists[d] {
      CarvedGrows(k.arenas, base, c, a, d);
    }
  }

  lemma {:induction false} NewBlocks(k: Book, c: nat, base: nat)
    requires RegionsOk(k.arenas, k.larges) && Partition(k) && c < 8 && FreshRegion(k, base, ArenaSize(c))
    ensures NoDup(ArenaBlocks(base, c)) && forall a :: a in ArenaBlocks(base, c) ==> a !in k.live
  {
    var l := ArenaBlocks(base, c);
    forall i, j | 0 <= i < j < |l| ensures l[i] != l[j] { Multiple(i, j, c); }
    forall i | 0 <= i < |l| ensures l[i] !in k.live {
      if l[i] in k.live { NewBlockNotCarved(k, c, base, i, k.live[l[i]]); }
    }
  }

  lemma {:induction false} RefillInv(heads: seq<nat>, m: Mem, m': Mem, k: Book, c: nat, base: nat)
    requires Inv(heads, m, k) && c < 8 && heads[c] == NULL && FreshRegion(k, base, ArenaSize(c))
    requires LinkedArena(m, m', base, c, Count(c))
    ensures |k.lists| == 8 && Inv(heads[c := base], m', Refilled(k, c, base))
  {
    assert Chain(m, heads[c], k.lists[c]);
    assert k.lists[c] == [];
    RefillRegions(k, c, base);
    RefillPartition(k, c, base);
    ArenaChain(m, m', base, c, 0);
    assert ArenaBlocks(base, c)[0..] == ArenaBlocks(base, c) && Block(base, c, 0) == base;
    forall d | 0 <= d < 8 && d != c ensures Chain(m', heads[d], k.lists[d]) {
      forall a | a in k.lists[d] ensures Load(m', a) == Load(m, a) {
        OutsideFresh(k, a, d, base, ArenaSize(c));
      }
      ChainFrame(m, m', heads[d], k.lists[d]);
    }
  }

  lemma {:induction false} OutsideFresh(k: Book, a: nat, d: nat, base: nat, len: nat)
    requires Carved(k.arenas, a, d) && FreshRegion(k, base, len)
    ensures d < 8 && Apart(a, Size(d), base, len)
  {
    var j, n :| BlockAt(k.arenas, j, n, a, d);
    BlockInArena(k.arenas, j, n, a, d);
  }

  // ----- large allocations -----

  lemma {:induction false} LargeRegions(k: Book, base: nat, len: nat)
    requires RegionsOk(k.arenas, k.larges) && FreshRegion(k, base, len) && len >= HEADER
    ensures base !in k.larges && RegionsOk(k.arenas, k.larges[base := len])
  {
  }

  lemma {:induction false} LargeInv(heads: seq<nat>, m: Mem, k: Book, base: nat, len: nat)
    requires Inv(heads, m, k) && FreshRegion(k, base, len) && len >= HEADER
    ensures base !in k.larges && Inv(heads, m[base := len], k.(larges := k.larges[base := len]))
  {
    hide RegionsOk, Carved;
    LargeRegions(k, base, len);
    forall c | 0 <= c < 8 ensures Chain(m[base := len], heads[c], k.lists[c]) {
      forall a | a in k.lists[c] ensures a != base {
        OutsideFresh(k, a, c, base, len);
      }
      ChainFrame(m, m[base := len], heads[c], k.lists[c]);
    }
  }

  lemma {:induction false} UnmapInv(heads: seq<nat>, m: Mem, k: Book, base: nat)
    requires Inv(heads, m, k) && base in k.larges
    ensures Inv(heads, m, k.(larges := k.larges - {base}))
  {
    hide Carved, Chain;
  }

  // ----- the allocator -----

  datatype Layout = Layout(size: nat, align: nat)

  function Needed(layout: Layout): nat {
    Max(Max(layout.size, layout.align), 8)
  }

  predicate PowerOfTwo(n: nat) {
    n == 1 || (n > 1 && n % 2 == 0 && PowerOfTwo(n / 2))
  }

  /** A power of two up to the class size divides it. */
  lemma {:induction false} AlignDivides(a: nat, align: nat, size: nat)
    requires PowerOfTwo(align) && PowerOfTwo(size) && align <= size && a % size == 0
    ensures a % align == 0
    decreases size
  {
    if align > 1 {
      assert a % 2 == 0 && (a / 2) % (size / 2) == 0 by { Halve(a, size); }
      AlignDivides(a / 2, align / 2, size / 2);
      DoubleMod(a / 2, align / 2);
    }
  }

  /** Sixteen bytes into a page is aligned to the powers of two up to 16 and to no other. */
  lemma {:induction false} BehindHeader(base: nat, align: nat)
    requires PowerOfTwo(align) && base % PAGE == 0
    ensures (base + HEADER) % align == 0 <==> align <= HEADER
  {
    hide PowerOfTwo;
    var p := base + HEADER;
    SmallPowers();
    HeaderOffset(base, base / PAGE);
    if align <= HEADER {
      AlignDivides(p, align, 16);
    } else if p % align == 0 {
      AboveSixteen(align);
      AlignDivides(p, 32, align);
    }
  }

  lemma {:induction false} HeaderOffset(base: nat, q: nat)
    requires base == q * PAGE
    ensures (base + HEADER) % 16 == 0 && (base + HEADER) % 32 == 16
  {
    Remainder(q * 256 + 1, 16, 0);
    Remainder(q * 128, 32, 16);
  }

  lemma {:induction false} SmallPowers()
    ensures PowerOfTwo(16) && PowerOfTwo(32)
  {
    assert PowerOfTwo(2) && PowerOfTwo(4) && PowerOfTwo(8);
  }

  lemma {:induction false} AboveSixteen(n: nat)
    requires PowerOfTwo(n) && n > 16
    ensures n >= 32
  {
    assert n / 2 > 1 && n / 4 > 1 && n / 8 > 1;
    assert PowerOfTwo(n / 2) && PowerOfTwo(n / 4) && PowerOfTwo(n / 8) && PowerOfTwo(n / 16);
  }

  lemma {:induction false} Halve(a: nat, size: nat)
    requires size > 0 && size % 2 == 0 && a % size == 0
    ensures a % 2 == 0 && (a / 2) % (size / 2) == 0
  {
    var q, h := a / size, size / 2;
    assert a == q * size == 2 * (q * h);
    Remainder(q, h, 0);
  }

  lemma {:induction false} DoubleMod(a: nat, m: nat)
    requires m > 0 && a % m == 0
    ensures (2 * a) % (2 * m) == 0
  {
    var q := a / m;
    assert 2 * a == q * (2 * m);
    Remainder(q, 2 * m, 0);
  }

  lemma {:induction false} SizesArePowers(c: nat)
    requires c < 8
    ensures PowerOfTwo(Size(c))
    decreases c
  {
    if c == 0 {
      SmallPowers();
    } else {
      SizesArePowers(c - 1);
      assert Size(c) == 2 * Size(c - 1);
    }
  }

  lemma {:induction false} LiveNotNull(heads: seq<nat>, m: Mem, k: Book, p: nat)
    requires Inv(heads, m, k) && p in k.live
    ensures p != NULL && k.live[p] < 8 && |heads| == 8
  {
    BlockFacts(k.arenas, k.larges, p, k.live[p]);
  }

  class PoolAlloc {
    var heads: seq<nat>   // one free list per class
    var mem: Mem
    ghost var book: Book

    ghost predicate Valid()
      reads this
    {
      Inv(heads, mem, book)
    }

    constructor ()
      ensures Valid() && book == Book(seq(8, _ => []), [], map[], map[])
    {
      heads := seq(8, _ => NULL);
      mem := map[];
      book := Book(seq(8, _ => []), [], map[], map[]);
    }

    /** Map an arena for class `c` and link its blocks into the (empty) free list. */
    method Refill(c: nat, mapped: Option<nat>) returns (ok: bool)
      requires Valid() && c < 8 && heads[c] == NULL
      requires mapped.Some? ==> FreshRegion(book, mapped.value, ArenaSize(c))
      modifies this
      ensures Valid() && ok == mapped.Some?
      ensures ok ==> heads == old(heads)[c := mapped.value] && heads[c] != NULL && book == Refilled(old(book), c, mapped.value)
      ensures !ok ==> heads == old(heads) && mem == old(mem) && book == old(book)
    {
      hide RegionsOk, Partition, Chain, Carved, LinkedArena;
      if mapped == None { return false; }
      var base, count, block := mapped.value, Count(c), Size(c);
      ghost var m := mem;
      LinkStart(m, base, c);
      for i := 0 to count
        invariant heads == old(heads) && book == old(book) && LinkedArena(m, mem, base, c, i)
      {
        LinkStep(m, mem, base, c, i);
        var next := if i + 1 < count then base + (i + 1) * block else NULL;
        mem := mem[base + i * block := next];
      }
      RefillInv(heads, m, mem, book, c, base);
      heads := heads[c := base];
      book := Refilled(book, c, base);
      return true;
    }

    /** Allocate. A block of the request's class comes off its free list, which is refilled first if
        empty; a larger request gets a mapping of its own. Null means that the kernel had no memory. */
    method Alloc(layout: Layout, mapped: Option<nat>) returns (p: nat)
      requires Valid() && PowerOfTwo(layout.align)
      requires mapped.Some? ==> FreshRegion(book, mapped.value, MapSize(layout))
      modifies this
      ensures Valid()
      ensures p == NULL ==> mapped == None && book == old(book)
      ensures mapped == None ==>
                (p == NULL <==> Needed(layout) > 2048 || old(heads[ClassFor(Needed(layout)).value]) == NULL)
      ensures p != NULL && Needed(layout) <= 2048 ==>
                var c := ClassFor(Needed(layout)).value;
                p !in old(book.live) && book.live == old(book.live)[p := c] && book.larges == old(book.larges)
                && layout.size <= Size(c) && p % layout.align == 0 && Carved(book.arenas, p, c)
                && (forall a :: a in old(book.live) ==> old(book.live)[a] < 8 && Apart(a, Size(old(book.live)[a]), p, Size(c)))
                && (if old(heads[c]) != NULL then p == old(heads[c]) && book.arenas == old(book.arenas)
                    else mapped.Some? && book.arenas == old(book.arenas) + [Arena(mapped.value, c)])
      ensures p != NULL && Needed(layout) > 2048 ==>
                mapped.Some? && p == mapped.value + HEADER && book == old(book).(larges := old(book.larges)[mapped.value := MapSize(layout)])
                && layout.size + HEADER <= MapSize(layout)
                && (p % layout.align == 0 <==> layout.align <= HEADER)
    {
      hide Inv, PowerOfTwo, Carved, ArenaSize, ClassFor;
      var size := Needed(layout);
      var cls := ClassFor(size);
      if cls.Some? {
        p := AllocClass(layout, cls.value, mapped);
      } else {
        var mapSize := MapSize(layout);
        if mapped == None { return NULL; }
        LargeInv(heads, mem, book, mapped.value, mapSize);
        BehindHeader(mapped.value, layout.align);
        mem := mem[mapped.value := mapSize];
        book := book.(larges := book.larges[mapped.value := mapSize]);
        p := mapped.value + HEADER;
      }
    }

    /** How much memory a request may have to map. */
    static function MapSize(layout: Layout): nat {
      if Needed(layout) <= 2048 then ArenaSize(ClassFor(Needed(layout)).value)
      else (Needed(layout) + 4095) / 4096 * 4096 + HEADER
    }

    method AllocClass(layout: Layout, c: nat, mapped: Option<nat>) returns (p: nat)
      requires Valid() && PowerOfTwo(layout.align) && c < 8 && Needed(layout) <= Size(c)
      requires mapped.Some? ==> FreshRegion(book, mapped.value, ArenaSize(c))
      modifies this
      ensures Valid()
      ensures p == NULL <==> mapped == None && old(heads[c]) == NULL
      ensures p == NULL ==> book == old(book)
      ensures p != NULL ==>
                p !in old(book.live) && book.live == old(book.live)[p := c] && book.larges == old(book.larges)
                && layout.size <= Size(c) && p % layout.align == 0 && Carved(book.arenas, p, c)
                && (forall a :: a in old(book.live) ==> old(book.live)[a] < 8 && Apart(a, Size(old(book.live)[a]), p, Size(c)))
                && (if old(heads[c]) != NULL then p == old(heads[c]) && book.arenas == old(book.arenas)
                    else mapped.Some? && book.arenas == old(book.arenas) + [Arena(mapped.value, c)])
    {
      if heads[c] == NULL {
        var ok := Refill(c, mapped);
        if !ok { return NULL; }
      }
      PopInv(heads, mem, book, c);
      p := heads[c];
      ghost var k := book;
      assert p in k.lists[c];
      BlockFacts(k.arenas, k.larges, p, c);
      SizesArePowers(c);
      AlignDivides(p, layout.align, Size(c));
      forall a | a in k.live ensures k.live[a] < 8 && Apart(a, Size(k.live[a]), p, Size(c)) {
        BlocksApart(k.arenas, k.larges, a, k.live[a], p, c);
      }
      heads := heads[c := Load(mem, p)];
      book := Popped(book, c);
    }

    /** Free what `Alloc` returned for the same layout. */
    method Dealloc(p: nat, layout: Layout) returns (unmapped: Option<(nat, nat)>)
      requires Valid()
      requires Needed(layout) <= 2048 ==> p in book.live && book.live[p] == ClassFor(Needed(layout)).value
      requires Needed(layout) > 2048 ==> p >= HEADER && p - HEADER in book.larges
      modifies this
      ensures Valid()
      ensures Needed(layout) <= 2048 ==>
                unmapped == None && book == Pushed(old(book), p) && heads == old(heads)[ClassFor(Needed(layout)).value := p]
      ensures Needed(layout) > 2048 ==>
                unmapped == Some((p - HEADER, old(book.larges)[p - HEADER]))
                && book == old(book).(larges := old(book.larges) - {p - HEADER})
    {
      var cls := ClassFor(Needed(layout));
      unmapped := None;
      if cls.Some? {
        PushInv(heads, mem, book, p);
        mem := mem[p := heads[cls.value]];
        heads := heads[cls.value := p];
        book := Pushed(book, p);
      } else {
        var header := p - HEADER;
        UnmapInv(heads, mem, book, header);
        unmapped := Some((header, Load(mem, header)));
        book := book.(larges := book.larges - {header});
      }
    }

    /** A block that is freed is the next one its class hands out, with no new arena, and everything is
        as it was. */
    method FreeThenAlloc(p: nat, layout: Layout, layout': Layout) returns (q: nat)
      requires Valid() && PowerOfTwo(layout'.align) && Needed(layout) <= 2048 && Needed(layout') <= 2048
      requires ClassFor(Needed(layout')) == ClassFor(Needed(layout))
      requires p in book.live && book.live[p] == ClassFor(Needed(layout)).value
      modifies this
      ensures Valid() && q == p && book.live == old(book.live) && book.arenas == old(book.arenas)
    {
      hide Inv, Carved, PowerOfTwo;
      LiveNotNull(heads, mem, book, p);
      var unmapped := Dealloc(p, layout);
      q := Alloc(layout', None);
      assert book.live == old(book.live);
    }

    /** The program writes whatever it likes inside a block it holds. */
    method UserWrite(a: nat, m: Mem)
      requires Valid() && a in book.live && book.live[a] < 8 && ChangedOnly(mem, m, a, Size(book.live[a]))
      modifies this`mem
      ensures Valid() && mem == m
    {
      WriteInv(heads, mem, m, book, a);
      mem := m;
    }

    /** The program writes whatever it likes inside a large allocation, behind its header. */
    method UserWriteLarge(p: nat, m: Mem)
      requires Valid() && p >= HEADER && p - HEADER in book.larges && book.larges[p - HEADER] >= HEADER
      requires ChangedOnly(mem, m, p, book.larges[p - HEADER] - HEADER)
      modifies this`mem
      ensures Valid() && mem == m
    {
      WriteLargeInv(heads, mem, m, book, p - HEADER);
      mem := m;
    }
  }
}
