/** The first-fit heap of the firmware after boot services are gone: one
    caller-owned byte buffer, boundary tags, an intrusive free list and a
    bump tail that rewinds. */
module Heap {
  import opened Common
  import opened Bytes
  import opened HeapTiling
  import opened HeapMemory

  /** A memory that holds `b` in its headers and threads `list` from `head`. */
  ghost predicate Threaded(m: seq<byte>, base: nat, head: nat, list: seq<nat>, b: Blocks) {
    && Headers(m, base, b) && Chain(m, base, list) && head == Ptr(base, list, 0)
    && Separate(b) && Distinct(list) && forall o :: o in list ==> IsFree(b, o)
  }

  /** Every byte of every live block is the same in both memories. */
  ghost predicate LiveKept(m: seq<byte>, k: seq<byte>, b: Blocks) {
    |m| == |k| && forall o :: IsLive(b, o) ==> Agree(m, k, o, b[o].size)
  }

  lemma ThreadedSpread(m: seq<byte>, base: nat, head: nat, list: seq<nat>, b: Blocks)
    requires Threaded(m, base, head, list, b)
    ensures Spread(list)
  {
    hide Chain, BlockAt, Headers, Ptr;
    forall i, k | 0 <= i < k < |list| ensures Apart(list[i], list[k]) {
      assert list[i] in list && list[k] in list;
      HeadersAt(m, base, b, list[i]);
      HeadersAt(m, base, b, list[k]);
    }
  }

  lemma NothingEndsAtZero(b: Blocks, bump: nat)
    requires Tiled(b, bump)
    ensures LeftOf(b, 0, 0)
  {
    hide Contiguous, Separate;
  }

  /** One block at most ends at a boundary. */
  lemma EndsOnce(b: Blocks, bump: nat, p: nat)
    requires Tiled(b, bump) && p in b
    ensures IsLive(b, p) ==> LeftOf(b, End(b, p), 0)
  {
    hide Contiguous;
    forall q | IsFree(b, q) && q != p ensures End(b, q) != End(b, p) {
      assert q < p || p < q;
    }
  }

  lemma HeadersAt(m: seq<byte>, base: nat, b: Blocks, o: nat)
    requires Headers(m, base, b) && o in b
    ensures BlockAt(m, base, o, b[o])
    ensures MIN_BLOCK <= b[o].size && o + b[o].size <= |m|
  {}

  /** Bypassing the list node at `j` keeps the rest threaded and touches no
      live block. */
  lemma UnlinkThreaded(m: seq<byte>, base: nat, head: nat, list: seq<nat>, b: Blocks, j: nat)
    requires Threaded(m, base, head, list, b) && j < |list|
    requires base + |m| <= U64
    ensures var k := Bypass(m, base, list, j);
            var head' := if j == 0 then Ptr(base, list, 1) else head;
            Threaded(k, base, head', Without(list, list[j]), b) && LiveKept(m, k, b)
  {
    hide BlockAt, Headers, Chain, Without, Spread, Distinct;
    ThreadedSpread(m, base, head, list, b);
    forall i | 0 <= i < |list| ensures list[i] in b && list[i] + HDR + 8 <= |m| {
      assert list[i] in list;
      HeadersAt(m, base, b, list[i]);
    }
    BypassChain(m, base, list, j);
    if j > 0 {
      assert list[j - 1] in list;
    }
    BypassHeaders(m, base, b, list, j);
    WithoutKeeps(list, list[j]);
    BypassLive(m, base, b, list, j);
  }

  lemma BypassLive(m: seq<byte>, base: nat, b: Blocks, list: seq<nat>, j: nat)
    requires Headers(m, base, b) && Separate(b)
    requires j < |list| && (j > 0 ==> IsFree(b, list[j - 1]) && list[j - 1] + HDR + 8 <= |m|)
    ensures LiveKept(m, Bypass(m, base, list, j), b)
  {
    hide BlockAt, Headers;
    forall o | IsLive(b, o) ensures Agree(m, Bypass(m, base, list, j), o, b[o].size) {
      HeadersAt(m, base, b, o);
      if j > 0 {
        HeadersAt(m, base, b, list[j - 1]);
        assert o < list[j - 1] || list[j - 1] < o;
      }
    }
  }

  /** `[lo, hi)` meets no block of `b`. */
  ghost predicate Clear(b: Blocks, lo: nat, hi: nat) {
    forall o :: o in b ==> o + b[o].size <= lo || hi <= o
  }

  lemma ThreadedSubset(m: seq<byte>, base: nat, head: nat, list: seq<nat>, b: Blocks, c: Blocks)
    requires Threaded(m, base, head, list, b)
    requires forall o :: o in c ==> o in b && c[o] == b[o]
    requires forall o :: o in list ==> o in c
    ensures Threaded(m, base, head, list, c)
  {
    hide BlockAt, Chain;
  }

  lemma ThreadedFrame(m: seq<byte>, k: seq<byte>, base: nat, head: nat, list: seq<nat>, b: Blocks, lo: nat, hi: nat)
    requires Threaded(m, base, head, list, b)
    requires SameOutside(m, k, lo, hi) && Clear(b, lo, hi)
    ensures Threaded(k, base, head, list, b)
  {
    hide BlockAt, Headers, Chain, Distinct;
    HeadersFrame(m, k, base, b, lo, hi);
    forall i | 0 <= i < |list| ensures list[i] + HDR + 8 <= lo || hi <= list[i] + HDR {
      assert list[i] in list;
      HeadersAt(m, base, b, list[i]);
    }
    ChainFrame(m, k, base, list, lo, hi);
  }

  lemma LiveFrame(m: seq<byte>, k: seq<byte>, base: nat, b: Blocks, lo: nat, hi: nat)
    requires Headers(m, base, b) && SameOutside(m, k, lo, hi) && Clear(b, lo, hi)
    ensures LiveKept(m, k, b)
  {
    hide BlockAt, Headers;
    forall o | IsLive(b, o) ensures Agree(m, k, o, b[o].size) {
      HeadersAt(m, base, b, o);
    }
  }

  lemma ConsChain(m: seq<byte>, base: nat, x: nat, list: seq<nat>)
    requires Chain(m, base, list)
    requires x + HDR + 8 <= |m| && Word(m, x + HDR, 8) == Ptr(base, list, 0)
    ensures Chain(m, base, [x] + list)
  {
    hide Word;
    var s := [x] + list;
    forall i | 0 <= i < |s| ensures Linked(m, base, s, i) {
      if i > 0 {
        assert Linked(m, base, list, i - 1);
      }
    }
  }

  lemma AddHeader(m: seq<byte>, base: nat, b: Blocks, o: nat, blk: Block)
    requires Headers(m, base, b) && BlockAt(m, base, o, blk)
    ensures Headers(m, base, b[o := blk])
  {
    hide BlockAt;
  }

  lemma AddSeparate(b: Blocks, o: nat, blk: Block)
    requires Separate(b) && o !in b && blk.size > 0 && Clear(b, o, o + blk.size)
    requires forall p :: p in b ==> b[p].size > 0
    ensures Separate(b[o := blk])
  {}

  /** Memory after a free block is written at `x` and pushed on the list. */
  function Push(m: seq<byte>, x: nat, size: nat, head: nat): (k: seq<byte>)
    requires MIN_BLOCK <= size && x + size <= |m|
    ensures |k| == |m|
  {
    WriteNext(WriteBlock(m, x, size, true), x, head)
  }

  lemma PushWords(m: seq<byte>, base: nat, x: nat, size: nat, head: nat)
    requires MIN_BLOCK <= size && x + size <= |m| && size < U64 && head < U64
    ensures SameOutside(m, Push(m, x, size, head), x, x + size)
    ensures BlockAt(Push(m, x, size, head), base, x, Block(size, Free))
    ensures Word(Push(m, x, size, head), x + HDR, 8) == head
  {
    hide Word, WriteBlock;
    WriteBlockWords(m, x, size, true);
    var k := WriteBlock(m, x, size, true);
    WriteNextHere(k, x, head);
    BlockFrame(k, Push(m, x, size, head), base, x, Block(size, Free));
  }

  lemma PushThreaded(m: seq<byte>, base: nat, head: nat, list: seq<nat>, b: Blocks, x: nat, size: nat)
    requires Threaded(m, base, head, list, b) && 0 < base && base + |m| <= U64
    requires MIN_BLOCK <= size && x + size <= |m| && x !in b && Clear(b, x, x + size)
    ensures var k := Push(m, x, size, head);
            Threaded(k, base, base + x, [x] + list, b[x := Block(size, Free)]) && LiveKept(m, k, b)
  {
    hide BlockAt, Chain, Word, Push, Clear, LiveKept;
    assert head < U64 by {
      if list != [] {
        HeadIsMember(list);
        HeadersAt(m, base, b, list[0]);
      }
    }
    var k := Push(m, x, size, head);
    PushWords(m, base, x, size, head);
    ThreadedFrame(m, k, base, head, list, b, x, x + size);
    LiveFrame(m, k, base, b, x, x + size);
    ConsChain(k, base, x, list);
    AddHeader(k, base, b, x, Block(size, Free));
    forall p | p in b ensures b[p].size > 0 {
      HeadersAt(m, base, b, p);
    }
    AddSeparate(b, x, Block(size, Free));
    assert x !in list;
    DistinctCons(x, list);
  }

  /** Memory after the block at `o` is handed out with pointer `user`. */
  function Claimed(m: seq<byte>, base: nat, o: nat, used: nat, user: nat): (k: seq<byte>)
    requires MIN_BLOCK <= used && o + used <= |m| && PointerInside(o, used, user)
    ensures |k| == |m|
  {
    var k := WriteBlock(m, o, used, false);
    if user == o + HDR then k else Put(k, user - 8, ToLE(base + o, 8))
  }

  lemma ClaimedWords(m: seq<byte>, base: nat, o: nat, used: nat, user: nat)
    requires MIN_BLOCK <= used && o + used <= |m| && PointerInside(o, used, user)
    requires used < U64 && base + o < U64
    ensures SameOutside(m, Claimed(m, base, o, used, user), o, o + used)
    ensures BlockAt(Claimed(m, base, o, used, user), base, o, Block(used, Live(user)))
    ensures PayloadAsFound(m, Claimed(m, base, o, used, user), o, used, user)
  {
    hide Word, WriteBlock;
    WriteBlockWords(m, o, used, false);
    var k := WriteBlock(m, o, used, false);
    if user != o + HDR {
      var c := Claimed(m, base, o, used, user);
      Pow256Values();
      PutWord(k, user - 8, base + o, 8);
      AgreeWord(k, c, o, 4);
      AgreeWord(k, c, o + 4, 4);
      AgreeWord(k, c, o + 8, 8);
      AgreeWord(k, c, o + used - FTR, 8);
    }
  }

  /** Handing a block out writes its header, its footer and the back pointer,
      and leaves the rest of the payload as it was found. */
  ghost predicate PayloadAsFound(m: seq<byte>, k: seq<byte>, o: nat, used: nat, user: nat) {
    && |m| == |k| && o + used <= |m|
    && forall i :: o + HDR <= i < o + used - FTR && (user == o + HDR || !(user - 8 <= i < user)) ==> k[i] == m[i]
  }

  lemma ClaimThreaded(m: seq<byte>, base: nat, head: nat, list: seq<nat>, b: Blocks, o: nat, used: nat, user: nat)
    requires Threaded(m, base, head, list, b) && 0 < base && base + |m| <= U64
    requires MIN_BLOCK <= used && o + used <= |m| && PointerInside(o, used, user)
    requires o !in b && Clear(b, o, o + used)
    ensures var k := Claimed(m, base, o, used, user);
            Threaded(k, base, head, list, b[o := Block(used, Live(user))]) && LiveKept(m, k, b)
            && PayloadAsFound(m, k, o, used, user)
  {
    hide BlockAt, Chain, Word, Claimed, PayloadAsFound, Clear, LiveKept, PointerInside;
    var k := Claimed(m, base, o, used, user);
    ClaimedWords(m, base, o, used, user);
    ThreadedFrame(m, k, base, head, list, b, o, o + used);
    LiveFrame(m, k, base, b, o, o + used);
    AddHeader(k, base, b, o, Block(used, Live(user)));
    forall p | p in b ensures b[p].size > 0 {
      HeadersAt(m, base, b, p);
    }
    AddSeparate(b, o, Block(used, Live(user)));
  }

  lemma MergedClear(b: Blocks, bump: nat, o: nat, l: nat, r: nat)
    requires Tiled(b, bump) && IsLive(b, o) && LeftOf(b, o, l) && RightOf(b, End(b, o), r)
    ensures Clear(Merged(b, o, l, r) - {o - l}, o - l, End(b, o) + r)
    ensures End(b, o) + r <= bump
  {
    hide Merged, Contiguous;
    MergedTiled(b, bump, o, l, r);
    var c := Merged(b, o, l, r);
    forall p | p in c - {o - l} ensures p + c[p].size <= o - l || End(b, o) + r <= p {
      assert p < o - l || o - l < p;
    }
  }

  /** Off the list, the block at `o` and its neighbours are nobody's. */
  lemma ReleaseRest(m: seq<byte>, base: nat, head: nat, t: Tiling, o: nat, l: nat, r: nat)
    requires Placed(t.blocks, t.bump) && Listed(t.blocks, t.list, t.live)
    requires IsLive(t.blocks, o) && LeftOf(t.blocks, o, l) && RightOf(t.blocks, End(t.blocks, o), r)
    requires Threaded(m, base, head, KeptFree(t, o, l, r), t.blocks)
    ensures Threaded(m, base, head, KeptFree(t, o, l, r), Merged(t.blocks, o, l, r) - {o - l})
  {
    hide Threaded, KeptFree, Merged, Listed, Total;
    var kept := KeptFree(t, o, l, r);
    var d := Merged(t.blocks, o, l, r) - {o - l};
    forall p | p in d ensures p in t.blocks && d[p] == t.blocks[p] {
      MergedElsewhere(t.blocks, t.bump, o, l, r, p);
    }
    ReleaseFree(t, o, l, r);
    forall p | p in kept ensures p in d {
      MergedElsewhere(t.blocks, t.bump, o, l, r, p);
    }
    ThreadedSubset(m, base, head, kept, t.blocks, d);
  }

  /** Giving back the block at `o`, seen in memory: the two neighbours are
      off the list already. */
  lemma ReleaseThreaded(m: seq<byte>, base: nat, head: nat, t: Tiling, o: nat, l: nat, r: nat)
    requires Inv(t) && 0 < base && base + |m| <= U64 && t.len <= |m|
    requires IsLive(t.blocks, o) && LeftOf(t.blocks, o, l) && RightOf(t.blocks, End(t.blocks, o), r)
    requires Threaded(m, base, head, KeptFree(t, o, l, r), t.blocks)
    ensures var t' := HeapTiling.Release(t, o, l, r);
            var size := l + t.blocks[o].size + r;
            if End(t.blocks, o) + r == t.bump then
              Threaded(m, base, head, t'.list, t'.blocks)
            else
              && o - l + size <= |m| && MIN_BLOCK <= size
              && Threaded(Push(m, o - l, size, head), base, base + o - l, t'.list, t'.blocks)
              && LiveKept(m, Push(m, o - l, size, head), t'.blocks)
  {
    hide Threaded, KeptFree, Merged, Push, Aligned, Contiguous, Separate, Coalesced, Listed, Total, PointersInside, Clear;
    ReleaseRest(m, base, head, t, o, l, r);
    if End(t.blocks, o) + r != t.bump {
      var size := l + t.blocks[o].size + r;
      var c := Merged(t.blocks, o, l, r);
      var d := c - {o - l};
      MergedClear(t.blocks, t.bump, o, l, r);
      assert c == d[o - l := Block(size, Free)];
      PushThreaded(m, base, head, KeptFree(t, o, l, r), d, o - l, size);
      assert LiveKept(m, Push(m, o - l, size, head), c);
    }
  }

  lemma ReleaseLive(m: seq<byte>, base: nat, head: nat, t: Tiling, o: nat, l: nat, r: nat)
    requires IsLive(t.blocks, o) && LeftOf(t.blocks, o, l) && RightOf(t.blocks, End(t.blocks, o), r)
    requires var t' := HeapTiling.Release(t, o, l, r); Threaded(m, base, head, t'.list, t'.blocks)
    ensures LiveKept(m, m, HeapTiling.Release(t, o, l, r).blocks)
  {
    hide Chain, Merged, LeftOf, RightOf, BlockAt;
    var b := HeapTiling.Release(t, o, l, r).blocks;
    forall p | IsLive(b, p) ensures Agree(m, m, p, b[p].size) {
      HeadersAt(m, base, b, p);
    }
  }

  lemma ThreadedHeaders(m: seq<byte>, base: nat, head: nat, list: seq<nat>, b: Blocks)
    requires Threaded(m, base, head, list, b)
    ensures Headers(m, base, b)
  {}

  lemma LiveWords(m: seq<byte>, base: nat, o: nat, b: Block)
    requires BlockAt(m, base, o, b) && b.use.Live? && PointerInside(o, b.size, b.use.user)
    ensures Word(m, o + 8, 8) == b.size && Word(m, o + 4, 4) == 0
    ensures b.use.user != o + HDR ==> Word(m, b.use.user - 8, 8) == base + o
  {}

  /** What a release does to the tiling, gathered. */
  lemma ReleaseWhole(t: Tiling, base: nat, o: nat, l: nat, r: nat)
    requires Inv(t) && IsLive(t.blocks, o)
    requires LeftOf(t.blocks, o, l) && RightOf(t.blocks, End(t.blocks, o), r)
    ensures var t' := HeapTiling.Release(t, o, l, r);
            && t' == Apply(t, base, Give(o)).0 && Inv(t') && t'.len == t.len
            && Total(t'.blocks, t'.live) + t.blocks[o].size == Total(t.blocks, t.live)
            && (forall p :: IsLive(t'.blocks, p) ==> IsLive(t.blocks, p) && t'.blocks[p] == t.blocks[p])
  {
    hide Coalesced, PointersInside, Separate, Contiguous, Aligned, KeptFree, Merged, LeftOf, RightOf, LeftFree, RightFree, Distinct;
    NeighboursKnown(t.blocks, t.bump, o, l, r);
    ReleaseKeeps(t, o, l, r);
    ReleaseAccounted(t, o, l, r);
    var t' := HeapTiling.Release(t, o, l, r);
    forall p | IsLive(t'.blocks, p) ensures IsLive(t.blocks, p) && t'.blocks[p] == t.blocks[p] {
      if p != o - l {
        MergedElsewhere(t.blocks, t.bump, o, l, r, p);
      }
    }
  }

  lemma LiveAfter(m: seq<byte>, k: seq<byte>, n: seq<byte>, b: Blocks, c: Blocks)
    requires LiveKept(m, k, b) && LiveKept(k, n, c)
    requires forall p :: IsLive(c, p) ==> IsLive(b, p) && c[p] == b[p]
    ensures LiveKept(m, n, c)
  {
    forall p | IsLive(c, p) ensures Agree(m, n, p, c[p].size) {
      assert IsLive(b, p);
    }
  }

  lemma NoNeighbours(t: Tiling, o: nat, l: nat, r: nat)
    requires Inv(t) && t.list == [] && IsLive(t.blocks, o)
    requires LeftOf(t.blocks, o, l) && RightOf(t.blocks, End(t.blocks, o), r)
    ensures l == 0 && r == 0
  {
    hide Tiled, Aligned, Coalesced, PointersInside, Total, Distinct;
    assert !IsFree(t.blocks, o - l) && !IsFree(t.blocks, End(t.blocks, o));
  }

  lemma EndKnown(b: Blocks, bump: nat, o: nat)
    requires Tiled(b, bump) && o in b
    ensures End(b, o) == bump || End(b, o) in b
  {}

  lemma KeptSelf(m: seq<byte>, base: nat, head: nat, list: seq<nat>, b: Blocks)
    requires Threaded(m, base, head, list, b)
    ensures LiveKept(m, m, b)
  {
    hide Chain, Separate, Distinct, Ptr;
    forall o | IsLive(b, o) ensures Agree(m, m, o, b[o].size) {
      HeadersAt(m, base, b, o);
    }
  }

  lemma WordBound(m: seq<byte>, a: nat)
    requires a + 8 <= |m|
    ensures Word(m, a, 8) < U64
  {
    Pow256Values();
  }

  /** A merged block stays inside the buffer. */
  lemma WholeInside(t: Tiling, o: nat, l: nat, r: nat)
    requires Inv(t) && IsLive(t.blocks, o)
    requires LeftOf(t.blocks, o, l) && RightOf(t.blocks, End(t.blocks, o), r)
    ensures l <= o && o + t.blocks[o].size + r <= t.bump
  {
    hide Contiguous, Separate, Coalesced, Accounted, Aligned, PointersInside;
  }

  lemma {:induction false} TotalAtLeast(b: Blocks, s: seq<nat>, x: nat)
    requires (forall o :: o in s ==> o in b) && x in s
    ensures b[x].size <= Total(b, s)
    decreases |s|
  {
    if s[0] != x {
      TotalAtLeast(b, s[1..], x);
    }
  }

  lemma LiveAgrees(m: seq<byte>, k: seq<byte>, b: Blocks, o: nat)
    requires LiveKept(m, k, b) && IsLive(b, o)
    ensures Agree(m, k, o, b[o].size)
  {}

  /** The entry at `k` does not come again. */
  lemma TailDistinct(s: seq<nat>, k: nat)
    requires Distinct(s) && k < |s|
    ensures s[k..] == [s[k]] + s[k + 1..] && s[k] !in s[k + 1..]
  {
    forall i | k + 1 <= i < |s|
      ensures s[i] != s[k]
    {}
  }

  lemma LiveTrans(m: seq<byte>, k: seq<byte>, n: seq<byte>, b: Blocks)
    requires LiveKept(m, k, b) && LiveKept(k, n, b)
    ensures LiveKept(m, n, b)
  {}

  lemma StillListed(t: Tiling, o: nat, l: nat, r: nat)
    requires Placed(t.blocks, t.bump) && Listed(t.blocks, t.list, t.live)
    requires IsLive(t.blocks, o) && LeftOf(t.blocks, o, l) && RightOf(t.blocks, End(t.blocks, o), r) && r > 0
    ensures End(t.blocks, o) in if l > 0 then Without(t.list, o - l) else t.list
  {
    hide Distinct;
    WithoutKeeps(t.list, if l > 0 then o - l else 0);
  }

  /** Memory after the block at list position `k` is taken for `need` bytes. */
  function Taken(m: seq<byte>, base: nat, head: nat, list: seq<nat>, k: nat, have: nat, need: nat): (r: (seq<byte>, nat))
    requires k < |list| && list[k] + have <= |m| && (k > 0 ==> list[k - 1] + HDR + 8 <= |m|)
    ensures |r.0| == |m|
  {
    var m1 := Bypass(m, base, list, k);
    var head1 := if k == 0 then Ptr(base, list, 1) else head;
    if Splits(have, need) then (Push(m1, list[k] + need, have - need, head1), base + list[k] + need) else (m1, head1)
  }

  lemma TakenThreaded(m: seq<byte>, base: nat, head: nat, t: Tiling, k: nat, need: nat, user: nat)
    requires Inv(t) && 0 < base && base + |m| <= U64 && t.len <= |m|
    requires Threaded(m, base, head, t.list, t.blocks)
    requires k < |t.list| && IsFree(t.blocks, t.list[k]) && (k > 0 ==> t.list[k - 1] + HDR + 8 <= |m|)
    requires MIN_BLOCK <= need <= t.blocks[t.list[k]].size
    ensures var o, have := t.list[k], t.blocks[t.list[k]].size;
            var t' := HeapTiling.TakeFree(t, k, need, user);
            && o + have <= |m|
            && var (m', head') := Taken(m, base, head, t.list, k, have, need);
            && Threaded(m', base, head', t'.list, t'.blocks - {o}) && LiveKept(m, m', t.blocks)
            && Agree(m, m', o, if Splits(have, need) then need else have)
  {
    hide Threaded, Bypass, Push, Aligned, Contiguous, Coalesced, Accounted, PointersInside, Clear, LiveKept, Without;
    var b, o, have := t.blocks, t.list[k], t.blocks[t.list[k]].size;
    var t' := HeapTiling.TakeFree(t, k, need, user);
    var m1 := Bypass(m, base, t.list, k);
    var head1 := if k == 0 then Ptr(base, t.list, 1) else head;
    UnlinkThreaded(m, base, head, t.list, b, k);
    BypassAgree(m, base, head, t.list, b, k);
    assert Distinct(t.list) by { ThreadedDistinct(m, base, head, t.list, b); }
    TakenRest(m1, base, head1, t, k);
    if Splits(have, need) {
      CutClear(b, t.bump, o, need);
      PushThreaded(m1, base, head1, Without(t.list, o), b - {o}, o + need, have - need);
      assert t'.blocks - {o} == (b - {o})[o + need := Block(have - need, Free)];
      LiveTwice(m, m1, Push(m1, o + need, have - need, head1), b, o);
      PushAgree(m1, o, need, have - need, head1);
    } else {
      assert t'.blocks - {o} == b - {o};
    }
  }

  lemma ThreadedDistinct(m: seq<byte>, base: nat, head: nat, list: seq<nat>, b: Blocks)
    requires Threaded(m, base, head, list, b)
    ensures Distinct(list)
  {}

  lemma BypassAgree(m: seq<byte>, base: nat, head: nat, list: seq<nat>, b: Blocks, k: nat)
    requires Threaded(m, base, head, list, b)
    requires k < |list| && IsFree(b, list[k]) && (k > 0 ==> list[k - 1] + HDR + 8 <= |m|)
    ensures Agree(m, Bypass(m, base, list, k), list[k], b[list[k]].size)
  {
    hide Chain, BlockAt, Headers;
    HeadersAt(m, base, b, list[k]);
    if k > 0 {
      assert list[k - 1] in list;
      HeadersAt(m, base, b, list[k - 1]);
      assert list[k - 1] < list[k] || list[k] < list[k - 1];
    }
  }

  lemma PushAgree(m: seq<byte>, o: nat, need: nat, rest: nat, head: nat)
    requires MIN_BLOCK <= rest && o + need + rest <= |m|
    ensures Agree(m, Push(m, o + need, rest, head), o, need)
  {}

  lemma TakenRest(m: seq<byte>, base: nat, head: nat, t: Tiling, k: nat)
    requires Distinct(t.list) && k < |t.list| && t.list[k] in t.blocks
    requires Threaded(m, base, head, Without(t.list, t.list[k]), t.blocks)
    ensures Threaded(m, base, head, Without(t.list, t.list[k]), t.blocks - {t.list[k]})
  {
    WithoutKeeps(t.list, t.list[k]);
    ThreadedSubset(m, base, head, Without(t.list, t.list[k]), t.blocks, t.blocks - {t.list[k]});
  }

  lemma CutClear(b: Blocks, bump: nat, o: nat, need: nat)
    requires Tiled(b, bump) && o in b && MIN_BLOCK <= need && Splits(b[o].size, need)
    ensures o + need !in b && Clear(b - {o}, o + need, o + b[o].size)
  {
    CutTiled(b, bump, o, need);
  }

  lemma LiveTwice(m: seq<byte>, k: seq<byte>, n: seq<byte>, b: Blocks, o: nat)
    requires IsFree(b, o) && LiveKept(m, k, b) && LiveKept(k, n, b - {o})
    ensures LiveKept(m, n, b)
  {
    forall p | IsLive(b, p) ensures Agree(m, n, p, b[p].size) {
      assert IsLive(b - {o}, p);
    }
  }

  /** A caller that writes to its own payload disturbs nothing of the heap's. */
  lemma PayloadWrite(m: seq<byte>, k: seq<byte>, base: nat, head: nat, list: seq<nat>, b: Blocks, o: nat, lo: nat, hi: nat)
    requires Threaded(m, base, head, list, b) && SameOutside(m, k, lo, hi)
    requires IsLive(b, o) && o + HDR <= b[o].use.user <= lo <= hi <= o + b[o].size - FTR
    ensures Threaded(k, base, head, list, b)
    ensures forall p :: IsLive(b, p) && p != o ==> Agree(m, k, p, b[p].size)
  {
    hide BlockAt, Distinct, Linked;
    forall p | p in b ensures BlockAt(k, base, p, b[p]) {
      BlockBounds(m, base, p, b[p]);
      BlockBounds(m, base, o, b[o]);
      assert p < o || p == o || o < p;
      BlockFrame(m, k, base, p, b[p]);
    }
    forall i | 0 <= i < |list| ensures list[i] + HDR + 8 <= lo || hi <= list[i] + HDR {
      assert list[i] in list;
      BlockBounds(m, base, list[i], b[list[i]]);
      assert list[i] < o || o < list[i];
    }
    ChainFrame(m, k, base, list, lo, hi);
    forall p | IsLive(b, p) && p != o ensures Agree(m, k, p, b[p].size) {
      BlockBounds(m, base, p, b[p]);
      assert p < o || o < p;
    }
  }

  /** A whole allocation from the free list, seen in memory. */
  lemma GrantFree(m: seq<byte>, base: nat, head: nat, t: Tiling, k: nat, need: nat, user: nat)
    requires Inv(t) && 0 < base && base + |m| <= U64 && t.len <= |m|
    requires Threaded(m, base, head, t.list, t.blocks)
    requires k < |t.list| && IsFree(t.blocks, t.list[k]) && (k > 0 ==> t.list[k - 1] + HDR + 8 <= |m|)
    requires need % 16 == 0 && MIN_BLOCK <= need <= t.blocks[t.list[k]].size
    requires PointerInside(t.list[k], need, user)
    ensures var o, have := t.list[k], t.blocks[t.list[k]].size;
            var used := if Splits(have, need) then need else have;
            var t' := HeapTiling.TakeFree(t, k, need, user);
            && o + have <= |m| && PointerInside(o, used, user) && MIN_BLOCK <= used
            && Inv(t') && t'.blocks[o] == Block(used, Live(user))
            && Total(t'.blocks, t'.live) == Total(t.blocks, t.live) + used
            && var (m1, head') := Taken(m, base, head, t.list, k, have, need);
            var m' := Claimed(m1, base, o, used, user);
            && Threaded(m', base, head', t'.list, t'.blocks) && LiveKept(m, m', t.blocks)
            && PayloadAsFound(m, m', o, used, user)
  {
    hide Threaded, Taken, Claimed, Clear, LiveKept, PayloadAsFound, Contiguous, Separate, Aligned, Coalesced, PointersInside,
         Without, Total, Distinct;
    var o, have := t.list[k], t.blocks[t.list[k]].size;
    var used := if Splits(have, need) then need else have;
    var t' := HeapTiling.TakeFree(t, k, need, user);
    TakeFreeKeeps(t, k, need, user);
    TakeFreeAccounted(t, k, need, user);
    TakenThreaded(m, base, head, t, k, need, user);
    var (m1, head') := Taken(m, base, head, t.list, k, have, need);
    TiledClear(t'.blocks, t'.bump, o);
    ClaimThreaded(m1, base, head', t'.list, t'.blocks - {o}, o, used, user);
    assert t'.blocks == (t'.blocks - {o})[o := Block(used, Live(user))];
    if Splits(have, need) {
      CutTiled(t.blocks, t.bump, o, need);
    }
    LiveOnward(m, m1, Claimed(m1, base, o, used, user), t.blocks, t'.blocks - {o}, o);
    FoundThrough(m, m1, Claimed(m1, base, o, used, user), o, used, user);
  }

  lemma FoundThrough(m: seq<byte>, k: seq<byte>, n: seq<byte>, o: nat, used: nat, user: nat)
    requires Agree(m, k, o, used) && PayloadAsFound(k, n, o, used, user)
    ensures PayloadAsFound(m, n, o, used, user)
  {}

  lemma TiledClear(b: Blocks, bump: nat, o: nat)
    requires Tiled(b, bump) && o in b
    ensures Clear(b - {o}, o, o + b[o].size)
  {
    forall p | p in b - {o} ensures p + b[p].size <= o || o + b[o].size <= p {
      assert p < o || o < p;
    }
  }

  lemma LiveOnward(m: seq<byte>, k: seq<byte>, n: seq<byte>, b: Blocks, c: Blocks, o: nat)
    requires LiveKept(m, k, b) && LiveKept(k, n, c)
    requires forall p :: IsLive(b, p) ==> p in c && c[p] == b[p]
    ensures LiveKept(m, n, b)
  {
    forall p | IsLive(b, p) ensures Agree(m, n, p, b[p].size) {
      assert IsLive(c, p);
    }
  }

  lemma LiveBounded(t: Tiling)
    requires Inv(t)
    ensures Accounted(t) && Total(t.blocks, t.live) <= t.bump <= t.len
  {}

  lemma LiveSelf(m: seq<byte>, base: nat, head: nat, t: Tiling)
    requires Inv(t) && Threaded(m, base, head, t.list, t.blocks)
    ensures LiveKept(m, m, t.blocks)
    ensures forall o :: o in t.list ==> o in t.blocks
  {
    hide Chain, Separate, Tiled, Aligned, Coalesced, PointersInside, Total;
    forall o | IsLive(t.blocks, o) ensures Agree(m, m, o, t.blocks[o].size) {
      HeadersAt(m, base, t.blocks, o);
    }
  }

  /** A whole allocation from the bump, seen in memory. */
  lemma GrantBump(m: seq<byte>, base: nat, head: nat, t: Tiling, need: nat, user: nat)
    requires Inv(t) && 0 < base && base + |m| <= U64 && t.len <= |m|
    requires Threaded(m, base, head, t.list, t.blocks)
    requires t.bump + need <= t.len && need % 16 == 0 && MIN_BLOCK <= need
    requires PointerInside(t.bump, need, user)
    ensures var t' := HeapTiling.TakeBump(t, need, user);
            var m' := Claimed(m, base, t.bump, need, user);
            && Inv(t') && t'.len == t.len && t'.bump == t.bump + need
            && Total(t'.blocks, t'.live) == Total(t.blocks, t.live) + need
            && Threaded(m', base, head, t'.list, t'.blocks) && LiveKept(m, m', t.blocks)
            && PayloadAsFound(m, m', t.bump, need, user)
  {
    hide Threaded, Claimed, Clear, LiveKept, PayloadAsFound, Contiguous, Separate, Aligned, Coalesced, PointersInside;
    var t' := HeapTiling.TakeBump(t, need, user);
    TakeBumpKeeps(t, need, user);
    ExtendTiled(t.blocks, t.bump, Block(need, Live(user)));
    TakeBumpAccounted(t, need, user);
    TiledClear(t'.blocks, t'.bump, t.bump);
    assert t'.blocks - {t.bump} == t.blocks;
    ClaimThreaded(m, base, head, t.list, t.blocks, t.bump, need, user);
  }

  /** A block taken out of the heap's hands, not yet claimed. */
  datatype Grant = Denied | Granted(block: nat, used: nat)

  class Heap {
    const base: nat
    const len: nat
    const mem: array<byte>
    var bump: nat
    var freeHead: nat
    var live: nat
    var high: nat
    /** The tiling the memory stands for. */
    ghost var t: Tiling

    ghost predicate Valid()
      reads this, mem
    {
      && 0 < base && base % 16 == 0 && base + mem.Length < U64
      && len <= mem.Length && t.len == len && t.bump == bump
      && Inv(t)
      && Threaded(mem[..], base, freeHead, t.list, t.blocks)
      && live == Total(t.blocks, t.live) && live <= high
    }

    constructor (base: nat, mem: array<byte>, n: nat)
      requires 0 < base && base % 16 == 0 && base + mem.Length < U64 && n <= mem.Length
      ensures Valid()
      ensures this.base == base && this.mem == mem && len == n - n % 16
      ensures t == Empty(len) && live == 0 && high == 0
    {
      this.base := base;
      this.mem := mem;
      len := n - n % 16;
      bump, freeHead, live, high := 0, 0, 0, 0;
      t := Empty(n - n % 16);
      new;
      EmptyInv(len);
    }

    // ---- raw memory ----

    method Store(a: nat, s: seq<byte>)
      requires a + |s| <= mem.Length
      modifies mem
      ensures mem[..] == Put(old(mem[..]), a, s)
    {
      forall i | 0 <= i < |s| {
        mem[a + i] := s[i];
      }
      assert mem[..][a..a + |s|] == s;
    }

    method StoreBlock(o: nat, size: nat, free: bool)
      requires MIN_BLOCK <= size && o + size <= mem.Length
      modifies mem
      ensures mem[..] == WriteBlock(old(mem[..]), o, size, free)
    {
      Store(o, Header(size, free));
      Store(o + size - FTR, ToLE(size, 8));
    }

    method StoreNext(o: nat, next: nat)
      requires o + HDR + 8 <= mem.Length
      modifies mem
      ensures mem[..] == WriteNext(old(mem[..]), o, next)
    {
      Store(o + HDR, ToLE(next, 8));
    }

    /** Is there a block header at this address, as far as memory tells? */
    predicate HeaderOk(addr: nat)
      requires bump <= mem.Length && bump % 16 == 0
      reads this, mem
    {
      && addr != 0
      && base <= addr && addr - base < bump && (addr - base) % 16 == 0
      && Word(mem[..], addr - base, 4) == MAGIC
      && MIN_BLOCK <= Word(mem[..], addr - base + 8, 8)
      && Word(mem[..], addr - base + 8, 8) % 16 == 0
    }

    lemma HeaderOkAt(o: nat)
      requires bump <= mem.Length && Placed(t.blocks, bump) && Aligned(t.blocks, bump)
      requires Headers(mem[..], base, t.blocks) && o in t.blocks && 0 < base
      ensures HeaderOk(base + o)
    {}

    // ---- neighbours ----

    /** The headers and footers in memory are those of the tiling. */
    ghost predicate Tagged()
      reads this, mem
    {
      Tiled(t.blocks, bump) && Aligned(t.blocks, bump) && Headers(mem[..], base, t.blocks)
    }

    /** The free block that ends where the one at `o` begins, going by the
        bytes below `o`. */
    method FreePrev(o: nat) returns (r: Option<(nat, nat)>)
      requires 0 < base && bump <= mem.Length && bump % 16 == 0 && o < bump && o % 16 == 0
      ensures r.Some? ==> r.value.0 + r.value.1 == o && r.value.0 % 16 == 0
      ensures Tagged() && o in t.blocks ==>
                match r
                case None => LeftOf(t.blocks, o, 0)
                case Some((p, size)) => size > 0 && LeftOf(t.blocks, o, size)
    {
      hide Tiled, Headers, Word;
      ghost var genuine := Tagged() && o in t.blocks;
      if genuine {
        NothingEndsAtZero(t.blocks, bump);
      }
      if o == 0 {
        return None;
      }
      if genuine {
        var p := Before(t.blocks, bump, o);
        PrevFooter(o, p);
      }
      var size := Word(mem[..], o - FTR, 8);
      if size < MIN_BLOCK || size % 16 != 0 || base + o < size {
        return None;
      }
      var prev := base + o - size;
      if !HeaderOk(prev) || Word(mem[..], prev - base + 4, 4) == 0 {
        return None;
      }
      if Word(mem[..], prev - base + 8, 8) != size {
        return None;
      }
      return Some((prev - base, size));
    }

    lemma PrevFooter(o: nat, p: nat)
      requires 0 < base && bump <= mem.Length
      requires Tiled(t.blocks, bump) && Aligned(t.blocks, bump) && Headers(mem[..], base, t.blocks)
      requires o in t.blocks && p in t.blocks && End(t.blocks, p) == o
      ensures FTR <= o <= mem.Length && Word(mem[..], o - FTR, 8) == t.blocks[p].size
      ensures MIN_BLOCK <= t.blocks[p].size <= o && t.blocks[p].size % 16 == 0
      ensures HeaderOk(base + p) && Word(mem[..], p + 8, 8) == t.blocks[p].size
      ensures Word(mem[..], p + 4, 4) == 0 ==> LeftOf(t.blocks, o, 0)
      ensures Word(mem[..], p + 4, 4) != 0 ==> LeftOf(t.blocks, o, t.blocks[p].size)
    {
      hide Contiguous, Separate, Word, HeaderOk;
      HeaderOkAt(p);
      assert BlockAt(mem[..], base, p, t.blocks[p]);
      EndsOnce(t.blocks, bump, p);
    }

    lemma NextHeader(e: nat)
      requires 0 < base && bump <= mem.Length
      requires Tiled(t.blocks, bump) && Aligned(t.blocks, bump) && Headers(mem[..], base, t.blocks)
      requires e == bump || e in t.blocks
      ensures e >= bump ==> !IsFree(t.blocks, e)
      ensures e < bump ==> HeaderOk(base + e) && Word(mem[..], e + 8, 8) == t.blocks[e].size
                           && 0 < t.blocks[e].size && e + t.blocks[e].size <= bump
                           && (Word(mem[..], e + 4, 4) == 0 <==> t.blocks[e].use.Live?)
    {
      if e < bump {
        HeaderOkAt(e);
        assert BlockAt(mem[..], base, e, t.blocks[e]);
      }
    }

    /** The size of the free block at address `next`, going by its bytes. */
    method FreeNext(next: nat) returns (r: Option<nat>)
      requires 0 < base && bump <= mem.Length && bump % 16 == 0 && base + mem.Length < U64
      ensures r.Some? ==> base <= next < base + bump && r.value < U64
      ensures Tagged() && base <= next && (next == base + bump || next - base in t.blocks) ==>
                match r
                case None => RightOf(t.blocks, next - base, 0)
                case Some(n) => n > 0 && RightOf(t.blocks, next - base, n)
    {
      hide Tiled, Headers, Word, FromLE;
      if Tagged() && base <= next && (next == base + bump || next - base in t.blocks) {
        NextHeader(next - base);
      }
      if next >= base + bump || !HeaderOk(next) || Word(mem[..], next - base + 4, 4) == 0 {
        return None;
      }
      var n := Word(mem[..], next - base + 8, 8);
      WordBound(mem[..], next - base + 8);
      if (next + n) % U64 > base + bump {
        return None;
      }
      return Some(n);
    }

    // ---- the free list ----

    /** Take the block at `o` off the free list, if it is on it. */
    method Unlink(o: nat, ghost list: seq<nat>, ghost b: Blocks)
      requires 0 < base && base + mem.Length <= U64
      requires Threaded(mem[..], base, freeHead, list, b)
      modifies mem, this`freeHead
      ensures Threaded(mem[..], base, freeHead, Without(list, o), b)
      ensures LiveKept(old(mem[..]), mem[..], b)
    {
      hide Headers, Without, Distinct, LiveKept, Word, Separate, IsFree;
      var prev := 0;
      var cur := freeHead;
      ghost var j := 0;
      while cur != 0
        invariant j <= |list| && cur == Ptr(base, list, j)
        invariant forall i :: 0 <= i < j ==> list[i] != o
        invariant prev == if j == 0 then 0 else base + list[j - 1]
        invariant mem[..] == old(mem[..]) && freeHead == old(freeHead)
        decreases |list| - j
      {
        assert Linked(mem[..], base, list, j);
        var next := Word(mem[..], cur - base + HDR, 8);
        if cur == base + o {
          UnlinkThreaded(mem[..], base, freeHead, list, b, j);
          if prev == 0 {
            freeHead := next;
          } else {
            StoreNext(prev - base, next);
          }
          return;
        }
        prev := cur;
        cur := next;
        j := j + 1;
      }
      WithoutAbsent(list, o);
      KeptSelf(mem[..], base, freeHead, list, b);
    }

    /** What memory says at list position `j`. */
    lemma ListNode(j: nat)
      requires Valid() && j < |t.list|
      ensures var o := t.list[j];
              && IsFree(t.blocks, o) && MIN_BLOCK <= t.blocks[o].size && o + t.blocks[o].size <= mem.Length
              && Word(mem[..], o + HDR, 8) == Ptr(base, t.list, j + 1)
              && Word(mem[..], o + 8, 8) == t.blocks[o].size
    {
      hide Tiled, Aligned, Coalesced, PointersInside, Total, Separate, Distinct, Word;
      assert t.list[j] in t.list;
      assert Linked(mem[..], base, t.list, j);
      HeadersAt(mem[..], base, t.blocks, t.list[j]);
    }

    /** Cut `need` bytes from the block at `o`; a remainder that can stand
        alone goes to the front of the list. */
    method Split(o: nat, have: nat, need: nat) returns (used: nat)
      requires need <= have && o + have <= mem.Length
      modifies mem, this`freeHead
      ensures used == if Splits(have, need) then need else have
      ensures if Splits(have, need) then
                mem[..] == Push(old(mem[..]), o + need, have - need, old(freeHead)) && freeHead == base + o + need
              else
                mem[..] == old(mem[..]) && freeHead == old(freeHead)
    {
      hide WriteBlock, WriteNext;
      if have - need >= MIN_BLOCK {
        var rest := o + need;
        StoreBlock(rest, have - need, true);
        StoreNext(rest, freeHead);
        freeHead := base + rest;
        return need;
      } else {
        return have;
      }
    }

    /** First free block that is big enough, taken off the list and cut. */
    method TakeFree(need: nat) returns (r: Grant)
      requires Valid() && MIN_BLOCK <= need
      modifies mem, this`freeHead
      ensures var k := FirstFit(t.blocks, t.list, need, 0);
              if k == |t.list| then
                r == Denied && mem[..] == old(mem[..]) && freeHead == old(freeHead)
              else
                var o, have := t.list[k], t.blocks[t.list[k]].size;
                && r == Granted(o, if Splits(have, need) then need else have)
                && o + have <= mem.Length && (k > 0 ==> t.list[k - 1] + HDR + 8 <= mem.Length)
                && (mem[..], freeHead) == Taken(old(mem[..]), base, old(freeHead), t.list, k, have, need)
    {
      hide Inv, Headers, Chain, Total, Separate, Distinct, Word, WriteNext, Push, FirstFit;
      LiveSelf(mem[..], base, freeHead, t);
      var prev := 0;
      var cur := freeHead;
      ghost var j := 0;
      while cur != 0
        invariant j <= |t.list| && cur == Ptr(base, t.list, j)
        invariant prev == if j == 0 then 0 else base + t.list[j - 1]
        invariant forall i :: 0 <= i < j ==> t.list[i] in t.blocks && t.blocks[t.list[i]].size < need
        invariant mem[..] == old(mem[..]) && freeHead == old(freeHead)
        decreases |t.list| - j
      {
        ListNode(j);
        if j > 0 {
          ListNode(j - 1);
        }
        var next := Word(mem[..], cur - base + HDR, 8);
        var have := Word(mem[..], cur - base + 8, 8);
        if have >= need {
          if prev == 0 {
            freeHead := next;
          } else {
            StoreNext(prev - base, next);
          }
          var used := Split(cur - base, have, need);
          return Granted(cur - base, used);
        }
        prev := cur;
        cur := next;
        j := j + 1;
      }
      return Denied;
    }

    method TakeBump(need: nat) returns (r: Grant)
      modifies this`bump
      ensures if old(bump) + need > len then r == Denied && bump == old(bump)
              else r == Granted(old(bump), need) && bump == old(bump) + need
    {
      var next := bump + need;
      if next > len {
        return Denied;
      }
      r := Granted(bump, need);
      bump := next;
    }

    /** Mark the block at `o` live and place the pointer in it. */
    method Claim(o: nat, used: nat, align: nat) returns (ptr: nat)
      requires MIN_BLOCK <= used && o + used <= mem.Length && 0 < align
      requires PointerInside(o, used, UserOf(base, o, align))
      modifies mem, this`live, this`high
      ensures ptr == base + UserOf(base, o, align)
      ensures mem[..] == Claimed(old(mem[..]), base, o, used, UserOf(base, o, align))
      ensures live == (if old(live) + used < U64 then old(live) + used else U64 - 1)
      ensures high == if live > old(high) then live else old(high)
    {
      hide WriteBlock, Put, ToLE, AlignUp;
      StoreBlock(o, used, false);
      live := if live + used < U64 then live + used else U64 - 1;
      if live > high {
        high := live;
      }
      if align <= 16 {
        return base + o + HDR;
      }
      var user := AlignUp(base + o + HDR + 8, align);
      Store(user - 8 - base, ToLE(base + o, 8));
      return user;
    }

    ghost predicate FreeGranted(k: nat, need: nat, user: nat)
      requires k < |t.list| && t.list[k] in t.blocks
      reads this, mem
    {
      var o, have := t.list[k], t.blocks[t.list[k]].size;
      var used := if Splits(have, need) then need else have;
      && need <= have && o + have <= mem.Length && (k > 0 ==> t.list[k - 1] + HDR + 8 <= mem.Length)
      && PointerInside(o, used, user) && MIN_BLOCK <= used
      && var t' := HeapTiling.TakeFree(t, k, need, user);
      && Inv(t') && t'.len == len && t'.bump == bump
      && Total(t'.blocks, t'.live) == live + used
      && var (m1, head') := Taken(mem[..], base, freeHead, t.list, k, have, need);
      var m' := Claimed(m1, base, o, used, user);
      && Threaded(m', base, head', t'.list, t'.blocks) && LiveKept(mem[..], m', t.blocks)
      && o in t'.blocks && t'.blocks[o].size == used && PayloadAsFound(mem[..], m', o, used, user)
    }

    lemma GrantFreeHere(need: nat, align: Align)
      requires Valid() && MIN_BLOCK <= need && need % 16 == 0
      requires forall o :: o in t.list ==> o in t.blocks
      requires align <= 16 ==> HDR + 1 + FTR <= need
      requires align > 16 ==> HDR + 8 + align + 1 + FTR <= need
      ensures var k := FirstFit(t.blocks, t.list, need, 0);
              k < |t.list| ==> FreeGranted(k, need, UserOf(base, t.list[k], align))
    {
      hide Inv, Threaded, Taken, Claimed, LiveKept, PayloadAsFound, Total, AlignUp, UserOf, FirstFit, Word, Ptr;
      var k := FirstFit(t.blocks, t.list, need, 0);
      if k < |t.list| {
        ListNode(k);
        if k > 0 {
          ListNode(k - 1);
        }
        BlockAligned(t.list[k]);
        UserAligned(base, t.list[k], align);
        GrantFree(mem[..], base, freeHead, t, k, need, UserOf(base, t.list[k], align));
      }
    }

    lemma BlockAligned(o: nat)
      requires Inv(t) && t.bump == bump
      ensures bump % 16 == 0 && (o in t.blocks ==> o % 16 == 0)
    {
      hide Tiled, Coalesced, PointersInside, Accounted;
    }

    /** First fit, then the bump; the block found is claimed. */
    method Place(need: nat, align: Align) returns (ptr: nat)
      requires Valid() && MIN_BLOCK <= need && need % 16 == 0
      requires forall o :: o in t.list ==> o in t.blocks
      requires align <= 16 ==> HDR + 1 + FTR <= need
      requires align > 16 ==> HDR + 8 + align + 1 + FTR <= need
      modifies mem, this
      ensures Valid()
      ensures t == old(HeapTiling.Alloc(t, need, o => UserOf(base, o, align))).0
      ensures ptr == match old(HeapTiling.Alloc(t, need, o => UserOf(base, o, align))).1
                     case None => 0
                     case Some(o) => base + UserOf(base, o, align)
      ensures LiveKept(old(mem[..]), mem[..], old(t.blocks))
      ensures match old(HeapTiling.Alloc(t, need, o => UserOf(base, o, align))).1
              case None => mem[..] == old(mem[..])
              case Some(o) =>
                o in t.blocks && PayloadAsFound(old(mem[..]), mem[..], o, t.blocks[o].size, UserOf(base, o, align))
    {
      hide Inv, Threaded, Taken, Claimed, LiveKept, PayloadAsFound, Total, HeapTiling.TakeFree, AlignUp, UserOf,
           FirstFit, Word, Ptr;
      LiveSelf(mem[..], base, freeHead, t);
      GrantFreeHere(need, align);
      BlockAligned(0);
      UserAligned(base, bump, align);
      if bump + need <= len {
        GrantBump(mem[..], base, freeHead, t, need, UserOf(base, bump, align));
      }
      ghost var t' := HeapTiling.Alloc(t, need, o => UserOf(base, o, align)).0;
      LiveBounded(t');
      var g := TakeFree(need);
      if g.Denied? {
        g := TakeBump(need);
        if g.Denied? {
          return 0;
        }
      }
      ptr := Claim(g.block, g.used, align);
      t := t';
    }

    /** Hand out a block for a layout; 0 is the null pointer. `Layout` makes
        the alignment a power of two and the size at most 2^63 - 1, so none
        of the checked additions can fail. */
    method Alloc(size: nat, align: Align) returns (ptr: nat)
      requires Valid()
      modifies mem, this
      ensures Valid()
      ensures t == old(Apply(t, base, Get(size, align))).0
      ensures ptr == match old(Apply(t, base, Get(size, align))).1
                     case None => 0
                     case Some(o) => base + UserOf(base, o, align)
      ensures LiveKept(old(mem[..]), mem[..], old(t.blocks))
      ensures match old(Apply(t, base, Get(size, align))).1
              case None => mem[..] == old(mem[..])
              case Some(o) =>
                o in t.blocks && PayloadAsFound(old(mem[..]), mem[..], o, t.blocks[o].size, UserOf(base, o, align))
    {
      hide Inv, Threaded, LiveKept, PayloadAsFound, Total, HeapTiling.Alloc, AlignUp, UserOf, BlockNeed;
      LiveSelf(mem[..], base, freeHead, t);
      var n := if size == 0 then 1 else size;
      if align > 4096 || n > len {
        return 0;
      }
      var need := BlockNeed(n, align);
      ptr := Place(need, align);
    }

    // ---- giving a block back ----

    /** The block a pointer belongs to, as the memory around it tells: a header
        right below it, or else one at the address in the word below it. For
        a pointer outside the buffer that word is `stray`. */
    function BlockOf(ptr: nat, stray: nat): (r: Option<nat>)
      requires bump <= mem.Length && bump % 16 == 0
      reads this, mem
    {
      if HDR <= ptr && HeaderOk(ptr - HDR) then Some(ptr - HDR - base)
      else if ptr < 8 then None
      else
        var block := if base + 8 <= ptr <= base + mem.Length then Word(mem[..], ptr - 8 - base, 8) else stray;
        if HeaderOk(block) then Some(block - base) else None
    }

    /** A live pointer leads back to its block unless it is over-aligned and
        the bytes 16 below it look like a header. */
    lemma BlockOfLive(o: nat, stray: nat)
      requires Valid() && IsLive(t.blocks, o)
      ensures var ptr := base + t.blocks[o].use.user;
              && base + HDR <= ptr <= base + bump <= base + mem.Length && bump % 16 == 0
              && (BlockOf(ptr, stray) == Some(o) <==> ptr == base + o + HDR || !HeaderOk(ptr - HDR))
    {
      hide Inv, Threaded, Total, Word, HeaderOk;
      LiveBlock(o);
    }

    lemma LiveBlock(o: nat)
      requires Valid() && IsLive(t.blocks, o)
      ensures o + t.blocks[o].size <= bump <= mem.Length && bump % 16 == 0 && (base + o) % 16 == 0
      ensures HeaderOk(base + o)
      ensures Word(mem[..], o + 8, 8) == t.blocks[o].size && Word(mem[..], o + 4, 4) == 0
      ensures PointerInside(o, t.blocks[o].size, t.blocks[o].use.user)
      ensures t.blocks[o].use.user != o + HDR ==> Word(mem[..], t.blocks[o].use.user - 8, 8) == base + o
    {
      hide Contiguous, Coalesced, Accounted, Separate, Chain, Distinct, Total, BlockAt, Word, HeaderOk, PointerInside;
      HeaderOkAt(o);
      HeadersAt(mem[..], base, t.blocks, o);
      LiveWords(mem[..], base, o, t.blocks[o]);
    }

    /** Stores at an address; what falls outside the buffer is not the heap's. */
    method StoreAt(addr: nat, s: seq<byte>)
      modifies mem
      ensures base <= addr && addr + |s| <= base + mem.Length ==> mem[..] == Put(old(mem[..]), addr - base, s)
    {
      forall i | 0 <= i < mem.Length && addr <= base + i < addr + |s| {
        mem[i] := s[base + i - addr];
      }
      if base <= addr && addr + |s| <= base + mem.Length {
        assert mem[..] == Put(old(mem[..]), addr - base, s);
      }
    }

    /** `genuine` says that the block at `o` is live, with free neighbours of `l`
        and `r` bytes. Otherwise the header was a false one and the stores go
        where it says. */
    method ReleaseBlock(p: nat, size: nat, ghost o: nat, ghost l: nat, ghost r: nat, ghost genuine: bool)
      requires 0 < base && base + mem.Length < U64 && bump <= mem.Length && p + HDR <= mem.Length && size < U64
      requires genuine ==>
                 && len <= mem.Length && t.len == len && t.bump == bump && Inv(t) && IsLive(t.blocks, o)
                 && LeftOf(t.blocks, o, l) && RightOf(t.blocks, End(t.blocks, o), r)
                 && p == o - l && size == l + t.blocks[o].size + r
                 && Threaded(mem[..], base, freeHead, KeptFree(t, o, l, r), t.blocks)
      modifies mem, this`freeHead, this`bump
      ensures genuine ==>
                var t' := HeapTiling.Release(t, o, l, r);
                && bump == t'.bump
                && Threaded(mem[..], base, freeHead, t'.list, t'.blocks)
                && LiveKept(old(mem[..]), mem[..], t'.blocks)
                && (bump < old(bump) ==> mem[..] == old(mem[..]))
    {
      hide Threaded, LiveKept, KeptFree, Merged, LeftOf, RightOf, Inv, Push;
      if genuine {
        WholeInside(t, o, l, r);
        ReleaseThreaded(mem[..], base, freeHead, t, o, l, r);
        if p + size == bump {
          ReleaseLive(mem[..], base, freeHead, t, o, l, r);
        }
      }
      if (base + p + size) % U64 == base + bump {
        bump := p;
        return;
      }
      PushFree(p, size);
    }

    /** Writes a free block's tags and puts it at the head of the list; what
        the tags place outside the buffer is not the heap's. */
    method PushFree(p: nat, size: nat)
      requires base + mem.Length < U64 && p + HDR <= mem.Length && size < U64
      modifies mem, this`freeHead
      ensures MIN_BLOCK <= size && p + size <= mem.Length ==> mem[..] == Push(old(mem[..]), p, size, old(freeHead))
      ensures freeHead == base + p
    {
      hide ToLE, Header, Put;
      Store(p, Header(size, true));
      StoreAt((base + p + size + U64 - FTR) % U64, ToLE(size, 8));
      StoreAt(base + p + HDR, ToLE(freeHead, 8));
      freeHead := base + p;
    }

    /** Take the free neighbours of the block at `o` off the list, going by the
        bytes around it. */
    method Detach(o: nat, size: nat) returns (l: nat, r: nat)
      requires Valid() && o < bump && o % 16 == 0 && size < U64
      requires IsLive(t.blocks, o) ==> size == t.blocks[o].size
      modifies mem, this`freeHead
      ensures l <= o && (o - l) % 16 == 0 && r < U64
      ensures IsLive(t.blocks, o) ==>
                && LeftOf(t.blocks, o, l) && RightOf(t.blocks, End(t.blocks, o), r)
                && Threaded(mem[..], base, freeHead, KeptFree(t, o, l, r), t.blocks)
                && LiveKept(old(mem[..]), mem[..], t.blocks)
                && (l == 0 && r == 0 ==> mem[..] == old(mem[..]))
    {
      hide Threaded, LiveKept, Total, Word, HeaderOk, Without, Coalesced, PointersInside, Contiguous, Separate, Placed,
           Aligned, Distinct;
      BumpInside();
      LiveSelf(mem[..], base, freeHead, t);
      l, r := 0, 0;
      ghost var list := t.list;
      ThreadedHeaders(mem[..], base, freeHead, list, t.blocks);
      var prev := FreePrev(o);
      if prev.Some? {
        l := prev.value.1;
        Unlink(prev.value.0, list, t.blocks);
        list := Without(list, o - l);
      }
      ghost var m1 := mem[..];
      ThreadedHeaders(m1, base, freeHead, list, t.blocks);
      if IsLive(t.blocks, o) {
        EndKnown(t.blocks, t.bump, o);
        assert End(t.blocks, o) == bump || End(t.blocks, o) in t.blocks;
      }
      var after := (base + o + size) % U64;
      var next := FreeNext(after);
      if next.Some? {
        r := next.value;
        if IsLive(t.blocks, o) {
          StillListed(t, o, l, r);
        }
        Unlink(after - base, list, t.blocks);
        LiveTrans(old(mem[..]), m1, mem[..], t.blocks);
      }
    }

    /** A live pointer that `BlockOf` can place. */
    ghost predicate Returnable(ptr: nat, o: nat)
      requires Valid()
      reads this, mem
    {
      && IsLive(t.blocks, o) && ptr == base + t.blocks[o].use.user
      && (BlockOfLive(o, 0); BlockOf(ptr, 0) == Some(o))
    }

    /** The caller's test for an over-aligned pointer: the four bytes 16 below
        it. What would be the size field is the back pointer itself, which
        is always a multiple of 16. */
    lemma ReturnableIff(o: nat)
      requires Valid() && IsLive(t.blocks, o)
      ensures var user := t.blocks[o].use.user;
              && o + HDR <= user && user + 4 <= o + t.blocks[o].size && o + t.blocks[o].size <= mem.Length
              && (Returnable(base + user, o) <==>
                  user == o + HDR || Word(mem[..], user - HDR, 4) != MAGIC || base + o < MIN_BLOCK)
    {
      hide Inv, Threaded, Total, Word;
      LiveBlock(o);
      BlockOfLive(o, 0);
    }

    lemma BumpInside()
      requires Valid()
      ensures bump <= mem.Length && bump % 16 == 0
    {
      hide Tiled, Coalesced, PointersInside, Accounted, Threaded, Total;
    }

    /** What the pointer leads to is a block of this heap, if anything. */
    ghost predicate Known(ptr: nat, stray: nat)
      requires Valid()
      reads this, mem
    {
      BumpInside();
      BlockOf(ptr, stray).Some? ==> BlockOf(ptr, stray).value in t.blocks
    }

    /** The bytes around the pointer lead to no header, or to one marked free. */
    ghost predicate Ignored(ptr: nat, stray: nat)
      requires Valid()
      reads this, mem
    {
      BumpInside();
      match BlockOf(ptr, stray)
      case None => true
      case Some(o) => BlockOfBounds(ptr, stray); Word(mem[..], o + 4, 4) != 0
    }

    lemma BlockOfBounds(ptr: nat, stray: nat)
      requires bump <= mem.Length && bump % 16 == 0
      ensures BlockOf(ptr, stray).Some? ==>
                var o := BlockOf(ptr, stray).value;
                && o + HDR <= mem.Length && o < bump && o % 16 == 0
                && MIN_BLOCK <= Word(mem[..], o + 8, 8) < U64
    {
      hide Word, FromLE;
      if BlockOf(ptr, stray).Some? {
        WordBound(mem[..], BlockOf(ptr, stray).value + 8);
      }
    }

    /** Where there is a header there is a live block. */
    lemma SomethingLive()
      requires Valid() && 0 < bump
      ensures 0 < live
    {
      hide Threaded, Contiguous, Separate, Aligned, Coalesced, PointersInside, Distinct, Total;
      var p := LastIsLive(t);
      TotalAtLeast(t.blocks, t.live, p);
    }

    /** Merge with the free neighbours and give the result back. A pointer is
        ignored exactly when the bytes around it lead to no header or to one
        marked free: otherwise the count of live bytes drops. If they lead to
        a block of this heap, that block is freed and nothing else changes. */
    method Dealloc(ptr: nat, stray: nat)
      requires Valid()
      modifies mem, this
      ensures high == old(high)
      ensures old(Ignored(ptr, stray)) ==> unchanged(this) && unchanged(mem)
      ensures !old(Ignored(ptr, stray)) ==> live < old(live)
      ensures !old(Ignored(ptr, stray)) ==>
                live == SatSub(old(live), old(BumpInside(); BlockOfBounds(ptr, stray); Word(mem[..], BlockOf(ptr, stray).value + 8, 8)))
      ensures !old(Known(ptr, stray)) ==> t == old(t)
      ensures old(Known(ptr, stray)) || old(Ignored(ptr, stray)) ==> Valid() && LiveKept(old(mem[..]), mem[..], t.blocks)
      ensures old(Known(ptr, stray)) && !old(Ignored(ptr, stray)) ==>
                t == old(Apply(t, base, Give((BumpInside(); BlockOf(ptr, stray)).value))).0
      ensures old(Known(ptr, stray)) && old(t.list) == [] && bump < old(bump) ==> mem[..] == old(mem[..])
    {
      hide Inv, Threaded, LiveKept, Total, Word, HeaderOk, HeapTiling.Release, LeftFree, RightFree, BlockOf, Apply;
      BumpInside();
      LiveSelf(mem[..], base, freeHead, t);
      if ptr == 0 {
        NullLeadsNowhere(stray);
        return;
      }
      var found := BlockOf(ptr, stray);
      BlockOfBounds(ptr, stray);
      if found.None? {
        return;
      }
      var block := found.value;
      if Word(mem[..], block + 4, 4) != 0 {
        return;
      }
      SomethingLive();
      if Known(ptr, stray) {
        FreeWord(block);
      }
      ReleaseAt(block);
    }

    lemma NullLeadsNowhere(stray: nat)
      requires bump <= mem.Length && bump % 16 == 0
      ensures BlockOf(0, stray) == None
    {}

    /** The free word of a header tells which kind of block it is. */
    lemma FreeWord(o: nat)
      requires Valid() && o in t.blocks
      ensures o + HDR <= mem.Length && (Word(mem[..], o + 4, 4) == 0 <==> IsLive(t.blocks, o))
    {
      hide Contiguous, Coalesced, Accounted, Separate, Chain, Distinct, Total, Word, HeaderOk, PointerInside;
      HeadersAt(mem[..], base, t.blocks, o);
    }

    /** Release what the header at `o` describes. */
    method ReleaseAt(o: nat)
      requires Valid() && o < bump && o % 16 == 0 && o + HDR <= mem.Length
      modifies mem, this
      ensures high == old(high) && live == SatSub(old(live), old(Word(mem[..], o + 8, 8)))
      ensures !IsLive(old(t.blocks), o) ==> t == old(t)
      ensures IsLive(old(t.blocks), o) ==>
                && Valid() && t == old(Apply(t, base, Give(o))).0
                && LiveKept(old(mem[..]), mem[..], t.blocks)
                && (old(t.list) == [] && bump < old(bump) ==> mem[..] == old(mem[..]))
    {
      hide Inv, Threaded, LiveKept, Total, Word, HeaderOk, HeapTiling.Release, LeftFree, RightFree;
      BumpInside();
      ghost var genuine := IsLive(t.blocks, o);
      if genuine {
        LiveBlock(o);
      }
      var orig := Word(mem[..], o + 8, 8);
      WordBound(mem[..], o + 8);
      var l, r := Detach(o, orig);
      ghost var t' := t;
      ghost var m1 := mem[..];
      if genuine {
        if t.list == [] {
          NoNeighbours(t, o, l, r);
        }
        t' := HeapTiling.Release(t, o, l, r);
        ReleaseWhole(t, base, o, l, r);
        WholeInside(t, o, l, r);
      }
      live := SatSub(live, orig);
      ReleaseBlock(o - l, (l + orig + r) % U64, o, l, r, genuine);
      if genuine {
        LiveAfter(old(mem[..]), m1, mem[..], t.blocks, t'.blocks);
      }
      t := t';
    }

    /** Giving one block back leaves every other live block as it is. */
    lemma GiveKeepsOthers(o: nat, p: nat)
      requires Valid() && IsLive(t.blocks, o) && p in t.live && p != o
      ensures var t' := Apply(t, base, Give(o)).0;
              p in t'.live && IsLive(t'.blocks, p) && p in t.blocks && t'.blocks[p] == t.blocks[p]
    {
      hide Threaded, LeftFree, RightFree, HeapTiling.Release, Coalesced, PointersInside, Aligned, Total;
      NeighboursKnown(t.blocks, t.bump, o, 0, 0);
      ReleaseWhole(t, base, o, LeftFree(t.blocks, o), RightFree(t.blocks, End(t.blocks, o)));
      GiveRetires(t, base, o);
      WithoutKeeps(t.live, o);
    }

    /** A pointer stays returnable while the bytes of its block do not change. */
    lemma StaysReturnable(m: seq<byte>, p: nat)
      requires Valid() && IsLive(t.blocks, p) && Agree(m, mem[..], p, t.blocks[p].size)
      requires p + HDR <= t.blocks[p].use.user && t.blocks[p].use.user + 4 <= p + t.blocks[p].size
      requires t.blocks[p].use.user == p + HDR || Word(m, t.blocks[p].use.user - HDR, 4) != MAGIC || base + p < MIN_BLOCK
      ensures Returnable(base + t.blocks[p].use.user, p)
    {
      hide Inv, Threaded, Total, Word;
      ReturnableIff(p);
      AgreeWord(m, mem[..], t.blocks[p].use.user - HDR, 4);
    }

    /** One free among many: the other pointers stay returnable. */
    method FreeOne(ptr: nat, ghost o: nat, ghost others: seq<nat>)
      requires Valid() && Returnable(ptr, o)
      requires forall p :: p in others ==> p != o && IsLive(t.blocks, p) && Returnable(base + t.blocks[p].use.user, p)
      modifies mem, this
      ensures Valid() && t == old(Apply(t, base, Give(o))).0
      ensures t.live == Without(old(t.live), o)
      ensures forall p :: p in others ==>
                && IsLive(t.blocks, p) && p in old(t.blocks) && t.blocks[p] == old(t.blocks)[p]
                && Returnable(base + t.blocks[p].use.user, p)
    {
      hide Inv, Threaded, Total, Word, HeaderOk, BlockOf, LiveKept, Apply;
      BumpInside();
      BlockOfLive(o, 0);
      FreeWord(o);
      LiveListed(o);
      GiveRetires(t, base, o);
      forall p | p in others
        ensures
          var t' := Apply(t, base, Give(o)).0;
          && p in t.blocks && p in t'.blocks && t'.blocks[p] == t.blocks[p]
          && p + HDR <= t.blocks[p].use.user && t.blocks[p].use.user + 4 <= p + t.blocks[p].size <= mem.Length
          && (t.blocks[p].use.user == p + HDR || Word(mem[..], t.blocks[p].use.user - HDR, 4) != MAGIC || base + p < MIN_BLOCK)
      {
        LiveListed(p);
        GiveKeepsOthers(o, p);
        ReturnableIff(p);
      }
      ghost var m := mem[..];
      Dealloc(ptr, 0);
      forall p | p in others
        ensures Returnable(base + t.blocks[p].use.user, p)
      {
        LiveAgrees(m, mem[..], t.blocks, p);
        StaysReturnable(m, p);
      }
    }

    lemma LiveListed(o: nat)
      requires Valid()
      ensures Distinct(t.live) && (IsLive(t.blocks, o) <==> o in t.live)
    {
      hide Threaded, Tiled, Coalesced, PointersInside, Aligned, Total;
    }

    /** Every live pointer given back, in whatever order, leaves an empty heap:
        no bump, no live bytes, no free list. */
    method FreeAll(ptrs: seq<nat>, ghost order: seq<nat>)
      requires Valid() && |ptrs| == |order| && Distinct(order) && forall o :: o in order <==> o in t.live
      requires forall i :: 0 <= i < |ptrs| ==> Returnable(ptrs[i], order[i])
      modifies mem, this
      ensures Valid() && t == Empty(len) && bump == 0 && live == 0 && freeHead == 0
    {
      hide Inv, Threaded, Total, Word, HeaderOk, BlockOf, Apply;
      var k := 0;
      while k < |ptrs|
        invariant 0 <= k <= |ptrs| && Valid()
        invariant forall o :: o in order[k..] <==> o in t.live
        invariant forall i :: k <= i < |ptrs| ==> Returnable(ptrs[i], order[i])
      {
        ghost var o := order[k];
        ghost var others := order[k + 1..];
        TailDistinct(order, k);
        forall p | p in others
          ensures p != o && IsLive(t.blocks, p) && Returnable(base + t.blocks[p].use.user, p)
        {
          var i :| 0 <= i < |others| && others[i] == p;
          assert order[k + 1 + i] == p;
        }
        LiveListed(o);
        WithoutKeeps(t.live, o);
        FreeOne(ptrs[k], o, others);
        forall i | k + 1 <= i < |ptrs|
          ensures Returnable(ptrs[i], order[i])
        {
          assert others[i - (k + 1)] == order[i];
        }
        k := k + 1;
      }
      assert t.live == [] by {
        if t.live != [] {
          HeadIsMember(t.live);
        }
      }
      NothingLive(t);
      EmptyThread();
    }

    lemma EmptyThread()
      requires Valid() && t == Empty(len)
      ensures bump == 0 && live == 0 && freeHead == 0
    {}

    /** The owner of a live block stores into its payload. */
    method UserWrite(o: nat, at: nat, s: seq<byte>)
      requires Valid() && IsLive(t.blocks, o)
      requires t.blocks[o].use.user <= at && at + |s| <= o + t.blocks[o].size - FTR
      requires o + t.blocks[o].size <= mem.Length
      modifies mem
      ensures Valid()
      ensures mem[..] == Put(old(mem[..]), at, s)
      ensures forall p :: IsLive(t.blocks, p) && p != o ==> Agree(old(mem[..]), mem[..], p, t.blocks[p].size)
    {
      hide Inv, Threaded, Total;
      LiveBlock(o);
      Store(at, s);
      PayloadWrite(old(mem[..]), mem[..], base, freeHead, t.list, t.blocks, o, at, at + |s|);
    }
  }

  /** A caller writes a header into its own payload and frees the block: the
      heap is empty again and the bytes are still there. */
  method PlantHeader(base: nat, mem: array<byte>) returns (h: Heap)
    requires 64 <= base && base % 64 == 0 && base + mem.Length < U64 && 256 <= mem.Length
    modifies mem
    ensures h.Valid() && fresh(h) && h.base == base && h.mem == mem && 240 <= h.len
    ensures h.t == Empty(h.len) && Word(mem[..], 48, 4) == MAGIC
  {
    hide Inv, Threaded, LiveKept, Total, Word, AlignUp, HeapTiling.Release, Header, Put, HeapTiling.Alloc;
    h := new Heap(base, mem, mem.Length);
    FirstBlock(h.t, base, 100, 8);
    var a := h.Alloc(100, 8);
    h.LiveBlock(0);
    h.UserWrite(0, 48, Header(32, false));
    HeaderWords(mem[..], 48, 32, false);
    h.BlockOfLive(0, 0);
    h.FreeWord(0);
    GiveRetires(h.t, base, 0);
    h.Dealloc(a, 0);
    NothingLive(h.t);
  }

  /** Over-aligned frees are not safe: a 64-aligned pointer is placed over
      bytes that once held the magic number. The word below the pointer is
      the back pointer, which always passes for a block size, so `BlockOf`
      takes the payload for a header and misses the block. */
  method StaleMagicMisleadsFree(base: nat, mem: array<byte>) returns (h: Heap, d: nat)
    requires 64 <= base && base % 64 == 0 && base + mem.Length < U64 && 256 <= mem.Length
    modifies mem
    ensures h.Valid() && fresh(h) && IsLive(h.t.blocks, 0) && d == base + h.t.blocks[0].use.user
    ensures !h.Returnable(d, 0)
  {
    hide Inv, Threaded, LiveKept, Total, Word, AlignUp, HeapTiling.Alloc;
    h := PlantHeader(base, mem);
    ghost var m1 := mem[..];
    FirstBlock(h.t, base, 24, 64);
    assert UserOf(base, 0, 64) == 64 by { Multiple64(base); }
    d := h.Alloc(24, 64);
    AgreeWord(m1, mem[..], 48, 4);
    h.LiveBlock(0);
    h.BlockOfLive(0, 0);
  }

  /** A pointer that leads to no block need not be ignored either: below this
      one lies what a caller wrote into its own payload, and it passes for
      a header. Freeing it counts off bytes that are still live. */
  method FalseHeaderFrees(base: nat, mem: array<byte>) returns (h: Heap)
    requires 64 <= base && base % 64 == 0 && base + mem.Length < U64 && 256 <= mem.Length
    modifies mem
    ensures fresh(h) && h.base == base && h.mem == mem
    ensures h.t.blocks == map[0 := Block(128, Live(16))] && h.live == 96 && !h.Valid()
  {
    hide Inv, Threaded, LiveKept, Total, Word, AlignUp, HeapTiling.Release, Header, Put, HeapTiling.Alloc;
    h := new Heap(base, mem, mem.Length);
    FirstBlock(h.t, base, 100, 8);
    var a := h.Alloc(100, 8);
    h.LiveBlock(0);
    OneLive(h.t);
    h.UserWrite(0, 48, Header(32, false));
    HeaderWords(mem[..], 48, 32, false);
    h.BumpInside();
    assert h.HeaderOk(base + 48);
    assert h.BlockOf(base + 64, 0) == Some(48);
    h.Dealloc(base + 64, 0);
  }

  lemma OneLive(t: Tiling)
    requires t.live == [0] && t.blocks == map[0 := Block(128, Live(16))]
    ensures Total(t.blocks, t.live) == 128
  {
    assert Total(t.blocks, t.live[1..]) == 0;
  }

  /** A pointer from elsewhere is not always ignored: if the word below it
      happens to be the address of a live block, that block is freed. */
  method StrayPointerFrees(h: Heap, ptr: nat, o: nat)
    requires h.Valid() && IsLive(h.t.blocks, o) && h.base + h.mem.Length + HDR < ptr
    modifies h, h.mem
    ensures h.Valid() && h.t == old(Apply(h.t, h.base, Give(o))).0
  {
    hide Inv, Threaded, Total, Word, Apply;
    h.BumpInside();
    h.LiveBlock(o);
    h.Dealloc(ptr, h.base + o);
  }

  /** The first block of an empty heap starts the buffer. */
  lemma FirstBlock(t: Tiling, base: nat, size: nat, align: Align)
    requires t == Empty(t.len) && Inv(t) && align <= 4096
    requires BlockNeed(AtLeastOne(size), align) <= t.len
    ensures Apply(t, base, Get(size, align)).1 == Some(0)
    ensures Apply(t, base, Get(size, align)).0 == TakeBump(t, BlockNeed(AtLeastOne(size), align), UserOf(base, 0, align))
  {
    hide BlockNeed, UserOf;
  }

  lemma Multiple64(base: nat)
    requires base % 64 == 0
    ensures AlignUp(base + 24, 64) == base + 64
  {}
}
