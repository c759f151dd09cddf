/** How the heap keeps its tiling inside the buffer it manages: a 16-byte
    header and an 8-byte footer on every block, the free list threaded
    through the first payload word of the free blocks, and a back pointer in
    front of every over-aligned pointer. */
module HeapMemory {
  import opened Common
  import opened Bytes
  import opened HeapTiling

  const MAGIC: nat := 0x4E55_4845

  /** Header, footer and back pointer of the block at `o`. */
  ghost predicate BlockAt(m: seq<byte>, base: nat, o: nat, b: Block) {
    && MIN_BLOCK <= b.size && o + b.size <= |m|
    && Word(m, o, 4) == MAGIC
    && Word(m, o + 4, 4) == (if b.use.Free? then 1 else 0)
    && Word(m, o + 8, 8) == b.size
    && Word(m, o + b.size - FTR, 8) == b.size
    && (b.use.Live? && b.use.user != o + HDR ==>
          o + HDR + 8 <= b.use.user < o + b.size && Word(m, b.use.user - 8, 8) == base + o)
  }

  ghost predicate Headers(m: seq<byte>, base: nat, b: Blocks) {
    forall o :: o in b ==> BlockAt(m, base, o, b[o])
  }

  /** Address of the `i`-th block on the free list, null past its end. */
  function Ptr(base: nat, list: seq<nat>, i: nat): nat {
    if i < |list| then base + list[i] else 0
  }

  /** Each listed block points at the next one. */
  ghost predicate Chain(m: seq<byte>, base: nat, list: seq<nat>) {
    && (forall i :: 0 <= i < |list| ==> list[i] + HDR + 8 <= |m|)
    && (forall i :: 0 <= i < |list| ==> Linked(m, base, list, i))
  }

  predicate Linked(m: seq<byte>, base: nat, list: seq<nat>, i: nat)
    requires i < |list|
  {
    list[i] + HDR + 8 <= |m| && Word(m, list[i] + HDR, 8) == Ptr(base, list, i + 1)
  }

  /** The two memories differ inside `[lo, hi)` at most. */
  predicate SameOutside(m: seq<byte>, k: seq<byte>, lo: nat, hi: nat) {
    |m| == |k| && forall i :: 0 <= i < |m| && !(lo <= i < hi) ==> m[i] == k[i]
  }

  // ---- stores ----

  function Header(size: nat, free: bool): (h: seq<byte>)
    ensures |h| == HDR
  {
    ToLE(MAGIC, 4) + ToLE(if free then 1 else 0, 4) + ToLE(size, 8)
  }

  function WriteBlock(m: seq<byte>, o: nat, size: nat, free: bool): (r: seq<byte>)
    requires MIN_BLOCK <= size && o + size <= |m|
    ensures |r| == |m|
  {
    Put(Put(m, o, Header(size, free)), o + size - FTR, ToLE(size, 8))
  }

  function WriteNext(m: seq<byte>, o: nat, next: nat): (r: seq<byte>)
    requires o + HDR + 8 <= |m|
    ensures |r| == |m|
  {
    Put(m, o + HDR, ToLE(next, 8))
  }

  lemma HeaderSlices(size: nat, free: bool)
    ensures Header(size, free)[..4] == ToLE(MAGIC, 4)
    ensures Header(size, free)[4..8] == ToLE(if free then 1 else 0, 4)
    ensures Header(size, free)[8..16] == ToLE(size, 8)
  {
    hide ToLE;
  }

  lemma HeaderWords(m: seq<byte>, o: nat, size: nat, free: bool)
    requires o + HDR <= |m| && size < U64 && m[o..o + HDR] == Header(size, free)
    ensures Word(m, o, 4) == MAGIC && Word(m, o + 4, 4) == (if free then 1 else 0) && Word(m, o + 8, 8) == size
  {
    hide ToLE, FromLE, Header;
    Pow256Values();
    HeaderSlices(size, free);
    var h := m[o..o + HDR];
    assert m[o..o + 4] == h[..4];
    assert m[o + 4..o + 8] == h[4..8];
    assert m[o + 8..o + 16] == h[8..16];
    FromToLE(MAGIC, 4);
    FromToLE(if free then 1 else 0, 4);
    FromToLE(size, 8);
  }

  lemma WriteBlockWords(m: seq<byte>, o: nat, size: nat, free: bool)
    requires MIN_BLOCK <= size && o + size <= |m| && size < U64
    ensures var r := WriteBlock(m, o, size, free);
            && Word(r, o, 4) == MAGIC && Word(r, o + 4, 4) == (if free then 1 else 0)
            && Word(r, o + 8, 8) == size && Word(r, o + size - FTR, 8) == size
            && (forall i :: 0 <= i < |m| && !(o <= i < o + HDR) && !(o + size - FTR <= i < o + size) ==> r[i] == m[i])
  {
    var m1 := Put(m, o, Header(size, free));
    var r := WriteBlock(m, o, size, free);
    Pow256Values();
    PutWord(m1, o + size - FTR, size, 8);
    assert r[o..o + HDR] == m1[o..o + HDR];
    HeaderWords(r, o, size, free);
  }

  // ---- what a store leaves alone ----

  /** Metadata survives when the header, the footer and the back pointer do. */
  lemma BlockFrame(m: seq<byte>, k: seq<byte>, base: nat, o: nat, b: Block)
    requires BlockAt(m, base, o, b)
    requires Agree(m, k, o, HDR) && Agree(m, k, o + b.size - FTR, FTR)
    requires b.use.Live? && b.use.user != o + HDR ==> Agree(m, k, b.use.user - 8, 8)
    ensures BlockAt(k, base, o, b)
  {
    AgreeWord(m, k, o, 4);
    AgreeWord(m, k, o + 4, 4);
    AgreeWord(m, k, o + 8, 8);
    AgreeWord(m, k, o + b.size - FTR, 8);
    if b.use.Live? && b.use.user != o + HDR {
      AgreeWord(m, k, b.use.user - 8, 8);
    }
  }

  /** A store confined to `[lo, hi)` keeps every block that lies outside. */
  lemma HeadersFrame(m: seq<byte>, k: seq<byte>, base: nat, b: Blocks, lo: nat, hi: nat)
    requires Headers(m, base, b) && SameOutside(m, k, lo, hi)
    requires forall o :: o in b ==> o + b[o].size <= lo || hi <= o
    ensures Headers(k, base, b)
  {
    hide BlockAt;
    forall o | o in b ensures BlockAt(k, base, o, b[o]) {
      BlockBounds(m, base, o, b[o]);
      BlockFrame(m, k, base, o, b[o]);
    }
  }

  lemma BlockBounds(m: seq<byte>, base: nat, o: nat, b: Block)
    requires BlockAt(m, base, o, b)
    ensures MIN_BLOCK <= b.size && o + b.size <= |m|
    ensures b.use.Live? && b.use.user != o + HDR ==> o + HDR + 8 <= b.use.user < o + b.size
  {}

  lemma ChainFrame(m: seq<byte>, k: seq<byte>, base: nat, list: seq<nat>, lo: nat, hi: nat)
    requires Chain(m, base, list) && SameOutside(m, k, lo, hi)
    requires forall i :: 0 <= i < |list| ==> list[i] + HDR + 8 <= lo || hi <= list[i] + HDR
    ensures Chain(k, base, list)
  {
    forall i | 0 <= i < |list|
      ensures Linked(k, base, list, i)
    {
      assert Linked(m, base, list, i);
      AgreeWord(m, k, list[i] + HDR, 8);
    }
  }

  // ---- taking a block off the list ----

  /** Memory after the list node at position `j` is bypassed; a bypass of the
      head is a change of the head pointer only. */
  function Bypass(m: seq<byte>, base: nat, list: seq<nat>, j: nat): (r: seq<byte>)
    requires j < |list| && (j > 0 ==> list[j - 1] + HDR + 8 <= |m|)
    ensures |r| == |m|
  {
    if j == 0 then m else WriteNext(m, list[j - 1], Ptr(base, list, j + 1))
  }

  lemma BypassHeaders(m: seq<byte>, base: nat, b: Blocks, list: seq<nat>, j: nat)
    requires Headers(m, base, b) && Separate(b)
    requires j < |list| && (j > 0 ==> IsFree(b, list[j - 1]) && list[j - 1] + HDR + 8 <= |m|)
    ensures Headers(Bypass(m, base, list, j), base, b)
  {
    hide BlockAt;
    if j > 0 {
      var k := Bypass(m, base, list, j);
      var p := list[j - 1];
      forall o | o in b ensures BlockAt(k, base, o, b[o]) {
        BlockBounds(m, base, o, b[o]);
        BlockBounds(m, base, p, b[p]);
        assert o < p || o == p || p < o;
        BlockFrame(m, k, base, o, b[o]);
      }
    }
  }

  predicate Apart(p: nat, q: nat) {
    p + HDR + 8 <= q || q + HDR + 8 <= p
  }

  /** Listed blocks are far enough apart for their link words not to meet. */
  ghost predicate Spread(list: seq<nat>) {
    forall i, k :: 0 <= i < k < |list| ==> Apart(list[i], list[k])
  }

  lemma WriteNextElsewhere(m: seq<byte>, p: nat, q: nat, next: nat)
    requires p + HDR + 8 <= |m| && q + HDR + 8 <= |m| && Apart(p, q)
    ensures Word(WriteNext(m, p, next), q + HDR, 8) == Word(m, q + HDR, 8)
  {
    AgreeWord(m, WriteNext(m, p, next), q + HDR, 8);
  }

  lemma WriteNextHere(m: seq<byte>, p: nat, next: nat)
    requires p + HDR + 8 <= |m| && next < U64
    ensures Word(WriteNext(m, p, next), p + HDR, 8) == next
  {
    Pow256Values();
    PutWord(m, p + HDR, next, 8);
  }

  lemma BypassLink(m: seq<byte>, base: nat, list: seq<nat>, j: nat, at: nat)
    requires Chain(m, base, list) && Spread(list)
    requires j < |list| && at < |list| && at != j
    requires j + 1 < |list| ==> base + list[j + 1] < U64
    ensures list[at] + HDR + 8 <= |m|
    ensures Word(Bypass(m, base, list, j), list[at] + HDR, 8) == Ptr(base, list, if at + 1 == j then j + 1 else at + 1)
  {
    hide Word, WriteNext;
    assert Linked(m, base, list, at);
    assert j > 0 ==> Linked(m, base, list, j - 1);
    if at + 1 == j {
      WriteNextHere(m, list[at], Ptr(base, list, j + 1));
    } else if j > 0 {
      assert Apart(list[at], list[j - 1]);
      WriteNextElsewhere(m, list[j - 1], list[at], Ptr(base, list, j + 1));
    }
  }

  lemma SplicePtr(base: nat, list: seq<nat>, j: nat, i: nat)
    requires j < |list| && i < |list|
    ensures Ptr(base, list[..j] + list[j + 1..], i) == Ptr(base, list, if i < j then i else i + 1)
  {}

  lemma BypassChain(m: seq<byte>, base: nat, list: seq<nat>, j: nat)
    requires Chain(m, base, list) && Distinct(list) && Spread(list) && j < |list|
    requires forall i :: 0 <= i < |list| ==> base + list[i] < U64
    ensures Chain(Bypass(m, base, list, j), base, Without(list, list[j]))
    ensures Ptr(base, Without(list, list[j]), 0) == if j == 0 then Ptr(base, list, 1) else Ptr(base, list, 0)
  {
    hide Bypass, Without, Distinct, Word, Ptr, Spread;
    WithoutSplits(list, j);
    var k := Bypass(m, base, list, j);
    var s := list[..j] + list[j + 1..];
    forall i | 0 <= i < |s|
      ensures Linked(k, base, s, i)
    {
      BypassLink(m, base, list, j, if i < j then i else i + 1);
      SplicePtr(base, list, j, i + 1);
    }
    SplicePtr(base, list, j, 0);
  }
}
