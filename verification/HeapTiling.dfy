/** The freeing heap as a tiling of `[0, bump)` by blocks. Addresses here are
    offsets from the 16-aligned base. Nothing in this module looks at memory:
    it says which block is where, which are free, and in what order the free
    list names them. */
module HeapTiling {
  import opened Common

  const HDR: nat := 16
  const FTR: nat := 8
  const MIN_BLOCK: nat := 32

  /** A live block remembers the pointer that was handed out for it. */
  datatype Use = Free | Live(user: nat)
  datatype Block = Block(size: nat, use: Use)
  type Blocks = map<nat, Block>

  /** `list` is the free list from its head; `live` the blocks handed out,
      oldest first. */
  datatype Tiling = Tiling(len: nat, bump: nat, blocks: Blocks, list: seq<nat>, live: seq<nat>)

  // ---- what every reachable state keeps ----

  ghost predicate Placed(b: Blocks, bump: nat) {
    forall o :: o in b ==> MIN_BLOCK <= b[o].size && o + b[o].size <= bump
  }

  ghost predicate Aligned(b: Blocks, bump: nat) {
    bump % 16 == 0 && forall o :: o in b ==> o % 16 == 0 && b[o].size % 16 == 0
  }

  function End(b: Blocks, o: nat): (e: nat)
    requires o in b
  {
    o + b[o].size
  }

  ghost predicate Contiguous(b: Blocks, bump: nat) {
    && (bump > 0 ==> 0 in b)
    && forall o {:trigger End(b, o)} :: o in b ==> End(b, o) == bump || End(b, o) in b
  }

  ghost predicate Separate(b: Blocks) {
    forall p, q :: p in b && q in b && p < q ==> p + b[p].size <= q
  }

  /** The blocks cut `[0, bump)` into pieces: no gap, no overlap. */
  ghost predicate Tiled(b: Blocks, bump: nat) {
    Placed(b, bump) && Contiguous(b, bump) && Separate(b)
  }

  predicate IsFree(b: Blocks, o: int) {
    o in b && b[o].use.Free?
  }

  predicate IsLive(b: Blocks, o: int) {
    o in b && b[o].use.Live?
  }

  /** No two free blocks touch and none touches the bump. */
  ghost predicate Coalesced(b: Blocks, bump: nat) {
    forall o {:trigger End(b, o)} :: IsFree(b, o) ==> End(b, o) != bump && !IsFree(b, End(b, o))
  }

  predicate Distinct(s: seq<nat>) {
    forall i, j :: 0 <= i < j < |s| ==> s[i] != s[j]
  }

  /** `list` names each free block once, `live` each live block once. */
  ghost predicate Listed(b: Blocks, list: seq<nat>, live: seq<nat>) {
    && Distinct(list) && Distinct(live)
    && (forall o :: o in list <==> IsFree(b, o))
    && (forall o :: o in live <==> IsLive(b, o))
  }

  /** A pointer handed out lies in its own block on a 16-byte boundary, clear
      of the header and the footer, with room for the back pointer when it is
      not the first payload byte. */
  predicate PointerInside(o: nat, size: nat, user: nat) {
    (user == o + HDR || o + HDR + 8 <= user) && user + FTR < o + size && user % 16 == 0
  }

  ghost predicate PointersInside(b: Blocks) {
    forall o :: IsLive(b, o) ==> PointerInside(o, b[o].size, b[o].use.user)
  }

  /** Bytes held by the blocks that `s` names. */
  ghost function Total(b: Blocks, s: seq<nat>): nat
    requires forall o :: o in s ==> o in b
  {
    if s == [] then 0 else b[s[0]].size + Total(b, s[1..])
  }

  ghost predicate Accounted(t: Tiling) {
    && Listed(t.blocks, t.list, t.live)
    && t.bump == Total(t.blocks, t.live) + Total(t.blocks, t.list)
  }

  ghost predicate Inv(t: Tiling) {
    && t.bump <= t.len
    && Tiled(t.blocks, t.bump)
    && Aligned(t.blocks, t.bump)
    && Coalesced(t.blocks, t.bump)
    && PointersInside(t.blocks)
    && Accounted(t)
  }

  function Empty(len: nat): (t: Tiling) {
    Tiling(len, 0, map[], [], [])
  }

  // ---- coverage ----

  lemma {:induction false} Covered(b: Blocks, bump: nat, from: nat, x: nat) returns (o: nat)
    requires Placed(b, bump) && Contiguous(b, bump)
    requires from in b && from <= x < bump
    ensures o in b && o <= x < o + b[o].size
    decreases bump - from
  {
    var next := End(b, from);
    if x < next {
      o := from;
    } else {
      o := Covered(b, bump, next, x);
    }
  }

  /** Every byte below the bump is in exactly one block. */
  lemma ExactTiling(b: Blocks, bump: nat, x: nat) returns (o: nat)
    requires Tiled(b, bump) && x < bump
    ensures o in b && o <= x < o + b[o].size
    ensures forall p :: p in b && p <= x < End(b, p) ==> p == o
  {
    o := Covered(b, bump, 0, x);
  }

  /** Every boundary except 0 is the end of a block. */
  lemma Before(b: Blocks, bump: nat, o: nat) returns (p: nat)
    requires Tiled(b, bump)
    requires 0 < o && (o in b || o == bump)
    ensures p in b && End(b, p) == o
  {
    p := Covered(b, bump, 0, o - 1);
  }

  // ---- sequences without one element ----

  function Without(s: seq<nat>, x: nat): (r: seq<nat>) {
    if s == [] then [] else if s[0] == x then s[1..] else [s[0]] + Without(s[1..], x)
  }

  lemma DistinctTail(s: seq<nat>)
    requires Distinct(s) && s != []
    ensures Distinct(s[1..]) && forall k :: 0 < k < |s| ==> s[k] != s[0]
  {}

  lemma {:induction false} WithoutSplits(s: seq<nat>, k: nat)
    requires Distinct(s) && k < |s|
    ensures Without(s, s[k]) == s[..k] + s[k + 1..]
  {
    if k > 0 {
      hide Distinct;
      var r := s[1..];
      DistinctTail(s);
      assert r[k - 1] == s[k] != s[0];
      WithoutSplits(r, k - 1);
      assert r[..k - 1] == s[1..k] && r[k..] == s[k + 1..];
      assert [s[0]] + (s[1..k] + s[k + 1..]) == s[..k] + s[k + 1..];
    }
  }

  lemma {:induction false} WithoutAbsent(s: seq<nat>, x: nat)
    requires x !in s
    ensures Without(s, x) == s
  {
    if s != [] {
      WithoutAbsent(s[1..], x);
      assert s == [s[0]] + s[1..];
    }
  }

  lemma WithoutKeeps(s: seq<nat>, x: nat)
    requires Distinct(s)
    ensures Distinct(Without(s, x))
    ensures forall y :: y in Without(s, x) <==> y in s && y != x
  {
    if x in s {
      var k :| 0 <= k < |s| && s[k] == x;
      WithoutSplits(s, k);
      var r := s[..k] + s[k + 1..];
      forall y ensures y in r <==> y in s && y != x {
        if y in s && y != x {
          var j :| 0 <= j < |s| && s[j] == y;
          assert r[if j < k then j else j - 1] == y;
        }
      }
    } else {
      WithoutAbsent(s, x);
    }
  }

  lemma {:induction false} TotalAppend(b: Blocks, s: seq<nat>, x: nat)
    requires forall o :: o in s ==> o in b
    requires x in b
    ensures forall o :: o in s + [x] ==> o in b
    ensures Total(b, s + [x]) == Total(b, s) + b[x].size
  {
    if s == [] {
      assert s + [x] == [x];
      assert Total(b, [x]) == b[x].size + Total(b, []);
    } else {
      TotalAppend(b, s[1..], x);
      assert (s + [x])[1..] == s[1..] + [x];
    }
  }

  lemma {:induction false} TotalWithout(b: Blocks, s: seq<nat>, x: nat)
    requires forall o :: o in s ==> o in b
    requires x in s
    ensures forall o :: o in Without(s, x) ==> o in b
    ensures Total(b, Without(s, x)) == Total(b, s) - b[x].size
  {
    if s[0] != x {
      TotalWithout(b, s[1..], x);
      var w := Without(s[1..], x);
      assert ([s[0]] + w)[1..] == w;
    }
  }

  /** A total only looks at the sizes of the blocks it names. */
  lemma {:induction false} TotalSame(a: Blocks, b: Blocks, s: seq<nat>)
    requires forall o :: o in s ==> o in a && o in b && a[o].size == b[o].size
    ensures Total(a, s) == Total(b, s)
  {
    if s != [] {
      TotalSame(a, b, s[1..]);
    }
  }

  // ---- edits of a tiling ----

  function Retag(b: Blocks, o: nat, use: Use): Blocks
    requires o in b
  {
    b[o := Block(b[o].size, use)]
  }

  lemma RetagTiled(b: Blocks, bump: nat, o: nat, use: Use)
    requires Tiled(b, bump) && o in b
    ensures Tiled(Retag(b, o, use), bump)
  {
    assert forall p :: p in b ==> End(Retag(b, o, use), p) == End(b, p);
  }

  /** Cut the block at `o` after `need` bytes. */
  function Cut(b: Blocks, o: nat, need: nat): Blocks
    requires o in b && need <= b[o].size
  {
    b[o := Block(need, b[o].use)][o + need := Block(b[o].size - need, Free)]
  }

  lemma CutSeparate(b: Blocks, bump: nat, o: nat, need: nat)
    requires Placed(b, bump) && Separate(b) && o in b
    requires MIN_BLOCK <= need && need + MIN_BLOCK <= b[o].size
    ensures o + need !in b
    ensures Separate(Cut(b, o, need)) && Placed(Cut(b, o, need), bump)
  {
    if o + need in b {
      assert false;
    }
  }

  lemma CutTiled(b: Blocks, bump: nat, o: nat, need: nat)
    requires Tiled(b, bump) && o in b
    requires MIN_BLOCK <= need && need + MIN_BLOCK <= b[o].size
    ensures o + need !in b
    ensures Tiled(Cut(b, o, need), bump)
  {
    CutSeparate(b, bump, o, need);
    var c := Cut(b, o, need);
    forall p | p in c ensures End(c, p) == bump || End(c, p) in c {
      if p == o + need {
        assert End(c, p) == End(b, o);
      } else if p != o {
        assert End(c, p) == End(b, p);
      }
    }
  }

  /** Glue the block at `q` to the one at `p` that it follows. */
  function Join(b: Blocks, p: nat, q: nat): Blocks
    requires p in b && q in b
  {
    (b - {q})[p := Block(b[p].size + b[q].size, Free)]
  }

  lemma JoinSeparate(b: Blocks, bump: nat, p: nat)
    requires Placed(b, bump) && Separate(b) && p in b && End(b, p) in b
    ensures Separate(Join(b, p, End(b, p))) && Placed(Join(b, p, End(b, p)), bump)
  {
    var q := End(b, p);
    var c := Join(b, p, q);
    forall o | o in c && p < o ensures p + c[p].size <= o {
      assert o in b && End(b, p) <= o;
    }
  }

  lemma JoinTiled(b: Blocks, bump: nat, p: nat)
    requires Tiled(b, bump) && p in b && End(b, p) in b
    ensures Tiled(Join(b, p, End(b, p)), bump)
  {
    JoinSeparate(b, bump, p);
    var q := End(b, p);
    var c := Join(b, p, q);
    forall o | o in c ensures End(c, o) == bump || End(c, o) in c {
      assert o in b;
      if o == p {
        assert End(c, o) == End(b, q);
      } else if End(b, o) == q {
        assert false;
      }
    }
  }

  lemma ExtendTiled(b: Blocks, bump: nat, blk: Block)
    requires Tiled(b, bump) && MIN_BLOCK <= blk.size
    ensures bump !in b
    ensures Tiled(b[bump := blk], bump + blk.size)
  {
    ExtendPlaced(b, bump, blk);
    hide Placed, Separate;
    assert forall p :: p in b ==> End(b[bump := blk], p) == End(b, p);
  }

  lemma ExtendPlaced(b: Blocks, bump: nat, blk: Block)
    requires Placed(b, bump) && Separate(b) && MIN_BLOCK <= blk.size
    ensures bump !in b
    ensures Placed(b[bump := blk], bump + blk.size) && Separate(b[bump := blk])
  {}

  lemma TruncateTiled(b: Blocks, bump: nat, o: nat)
    requires Tiled(b, bump)
    requires o in b && End(b, o) == bump
    ensures Tiled(b - {o}, o)
  {
    TruncatePlaced(b, bump, o);
    hide Placed, Separate;
    var c := b - {o};
    assert forall p :: p in c ==> End(c, p) == End(b, p);
  }

  lemma TruncatePlaced(b: Blocks, bump: nat, o: nat)
    requires Placed(b, bump) && Separate(b)
    requires o in b && End(b, o) == bump
    ensures Placed(b - {o}, o) && Separate(b - {o})
  {
    var c := b - {o};
    forall p | p in c ensures p + c[p].size <= o {
      assert p < o || o < p;
    }
  }

  // ---- allocation ----

  /** Position of the first free block from `k` on that holds `need` bytes. */
  ghost function FirstFit(b: Blocks, list: seq<nat>, need: nat, k: nat): (r: nat)
    requires k <= |list|
    requires forall o :: o in list ==> o in b
    ensures k <= r <= |list|
    ensures r < |list| ==> need <= b[list[r]].size
    ensures forall j :: k <= j < r ==> b[list[j]].size < need
    decreases |list| - k
  {
    if k == |list| || need <= b[list[k]].size then k else FirstFit(b, list, need, k + 1)
  }

  /** Does cutting `need` from a block of `have` leave a block behind? */
  predicate Splits(have: nat, need: nat) {
    need + MIN_BLOCK <= have
  }

  /** Hand out the free block at list position `k`, putting a big enough
      remainder at the front of the list. */
  ghost function TakeFree(t: Tiling, k: nat, need: nat, user: nat): (r: Tiling)
    requires k < |t.list| && t.list[k] in t.blocks && need <= t.blocks[t.list[k]].size
  {
    var o := t.list[k];
    var kept := Without(t.list, o);
    if Splits(t.blocks[o].size, need) then
      t.(blocks := Retag(Cut(t.blocks, o, need), o, Live(user)), list := [o + need] + kept, live := t.live + [o])
    else
      t.(blocks := Retag(t.blocks, o, Live(user)), list := kept, live := t.live + [o])
  }

  ghost function TakeBump(t: Tiling, need: nat, user: nat): (r: Tiling) {
    t.(bump := t.bump + need, blocks := t.blocks[t.bump := Block(need, Live(user))], live := t.live + [t.bump])
  }

  /** First fit from the free list, then the bump, then nothing. `user`
      places the pointer inside the block. */
  ghost function Alloc(t: Tiling, need: nat, user: nat -> nat): (r: (Tiling, Option<nat>))
    requires forall o :: o in t.list ==> o in t.blocks
  {
    var k := FirstFit(t.blocks, t.list, need, 0);
    if k < |t.list| then
      (TakeFree(t, k, need, user(t.list[k])), Some(t.list[k]))
    else if t.bump + need <= t.len then
      (TakeBump(t, need, user(t.bump)), Some(t.bump))
    else
      (t, None)
  }

  lemma TakeFreeTiled(t: Tiling, k: nat, need: nat, user: nat)
    requires Tiled(t.blocks, t.bump)
    requires k < |t.list| && t.list[k] in t.blocks
    requires MIN_BLOCK <= need <= t.blocks[t.list[k]].size
    ensures Tiled(TakeFree(t, k, need, user).blocks, t.bump)
  {
    hide Tiled;
    var o := t.list[k];
    if Splits(t.blocks[o].size, need) {
      CutTiled(t.blocks, t.bump, o, need);
      RetagTiled(Cut(t.blocks, o, need), t.bump, o, Live(user));
    } else {
      RetagTiled(t.blocks, t.bump, o, Live(user));
    }
  }

  lemma TakeFreeCoalesced(t: Tiling, k: nat, need: nat, user: nat)
    requires Tiled(t.blocks, t.bump) && Coalesced(t.blocks, t.bump)
    requires k < |t.list| && IsFree(t.blocks, t.list[k])
    requires MIN_BLOCK <= need <= t.blocks[t.list[k]].size
    ensures Coalesced(TakeFree(t, k, need, user).blocks, t.bump)
  {
    var b, o := t.blocks, t.list[k];
    var c := TakeFree(t, k, need, user).blocks;
    if Splits(b[o].size, need) {
      CutTiled(b, t.bump, o, need);
    }
    forall p | IsFree(c, p) ensures End(c, p) != t.bump && !IsFree(c, End(c, p)) {
      if p != o + need {
        assert End(c, p) == End(b, p);
        assert p < o || o < p;
      } else {
        assert End(c, p) == End(b, o);
      }
    }
  }

  lemma TakeFreeListed(t: Tiling, k: nat, need: nat, user: nat)
    requires Tiled(t.blocks, t.bump) && Listed(t.blocks, t.list, t.live)
    requires k < |t.list| && t.list[k] in t.blocks
    requires MIN_BLOCK <= need <= t.blocks[t.list[k]].size
    ensures var r := TakeFree(t, k, need, user); Listed(r.blocks, r.list, r.live)
  {
    hide Tiled;
    var o := t.list[k];
    assert o in t.list;
    WithoutKeeps(t.list, o);
    if Splits(t.blocks[o].size, need) {
      CutTiled(t.blocks, t.bump, o, need);
      assert o + need !in t.list;
    }
    assert o !in t.live;
  }

  lemma TakeFreeAccounted(t: Tiling, k: nat, need: nat, user: nat)
    requires Tiled(t.blocks, t.bump) && Accounted(t)
    requires k < |t.list| && t.list[k] in t.blocks
    requires MIN_BLOCK <= need <= t.blocks[t.list[k]].size
    ensures var r := TakeFree(t, k, need, user);
            Accounted(r) && Total(r.blocks, r.live) == Total(t.blocks, t.live) + r.blocks[t.list[k]].size
  {
    hide Tiled;
    var o := t.list[k];
    var r := TakeFree(t, k, need, user);
    TakeFreeListed(t, k, need, user);
    var kept := Without(t.list, o);
    WithoutKeeps(t.list, o);
    TotalWithout(t.blocks, t.list, o);
    if Splits(t.blocks[o].size, need) {
      CutTiled(t.blocks, t.bump, o, need);
      assert r.list[1..] == kept;
    }
    TotalSame(t.blocks, r.blocks, kept);
    TotalSame(t.blocks, r.blocks, t.live);
    TotalAppend(r.blocks, t.live, o);
  }

  lemma TakeFreeKeeps(t: Tiling, k: nat, need: nat, user: nat)
    requires Inv(t) && k < |t.list| && IsFree(t.blocks, t.list[k])
    requires need % 16 == 0 && MIN_BLOCK <= need <= t.blocks[t.list[k]].size
    requires PointerInside(t.list[k], need, user)
    ensures Inv(TakeFree(t, k, need, user))
  {
    hide Tiled, Coalesced, Accounted;
    TakeFreeTiled(t, k, need, user);
    TakeFreeCoalesced(t, k, need, user);
    TakeFreeAccounted(t, k, need, user);
  }

  lemma TakeBumpCoalesced(t: Tiling, need: nat, user: nat)
    requires Placed(t.blocks, t.bump) && Coalesced(t.blocks, t.bump) && need > 0
    ensures var r := TakeBump(t, need, user); Coalesced(r.blocks, r.bump)
  {
    var r := TakeBump(t, need, user);
    forall p | IsFree(r.blocks, p) ensures End(r.blocks, p) != r.bump && !IsFree(r.blocks, End(r.blocks, p)) {
      assert End(r.blocks, p) == End(t.blocks, p);
    }
  }

  lemma TakeBumpAccounted(t: Tiling, need: nat, user: nat)
    requires Accounted(t) && t.bump !in t.blocks
    ensures var r := TakeBump(t, need, user);
            Accounted(r) && Total(r.blocks, r.live) == Total(t.blocks, t.live) + need
  {
    var r := TakeBump(t, need, user);
    TotalSame(t.blocks, r.blocks, t.list);
    TotalSame(t.blocks, r.blocks, t.live);
    TotalAppend(r.blocks, t.live, t.bump);
  }

  lemma TakeBumpKeeps(t: Tiling, need: nat, user: nat)
    requires Inv(t) && t.bump + need <= t.len
    requires need % 16 == 0 && MIN_BLOCK <= need
    requires PointerInside(t.bump, need, user)
    ensures Inv(TakeBump(t, need, user))
  {
    hide Contiguous, Separate, Coalesced, Accounted;
    ExtendTiled(t.blocks, t.bump, Block(need, Live(user)));
    TakeBumpCoalesced(t, need, user);
    TakeBumpAccounted(t, need, user);
  }

  // ---- release ----

  /** `l` is the size of the free block that ends at `o`, 0 when there is none. */
  ghost predicate LeftOf(b: Blocks, o: nat, l: nat) {
    if l == 0 then forall p {:trigger End(b, p)} :: IsFree(b, p) ==> End(b, p) != o
    else l <= o && o - l in b && b[o - l] == Block(l, Free)
  }

  /** `r` is the size of the free block that starts at `e`, 0 when there is none. */
  ghost predicate RightOf(b: Blocks, e: nat, r: nat) {
    if r == 0 then !IsFree(b, e) else e in b && b[e] == Block(r, Free)
  }

  /** The block at `o` merged with its free neighbours. */
  ghost function Merged(b: Blocks, o: nat, l: nat, r: nat): (c: Blocks)
    requires IsLive(b, o) && LeftOf(b, o, l) && RightOf(b, End(b, o), r)
    ensures o - l in c && c[o - l] == Block(l + b[o].size + r, Free)
  {
    var b0 := Retag(b, o, Free);
    var b1 := if l > 0 then Join(b0, o - l, o) else b0;
    if r > 0 then Join(b1, o - l, End(b, o)) else b1
  }

  /** The free list less the two neighbours. */
  ghost function KeptFree(t: Tiling, o: nat, l: nat, r: nat): (s: seq<nat>)
    requires IsLive(t.blocks, o) && LeftOf(t.blocks, o, l)
  {
    var l1 := if l > 0 then Without(t.list, o - l) else t.list;
    if r > 0 then Without(l1, End(t.blocks, o)) else l1
  }

  ghost function Release(t: Tiling, o: nat, l: nat, r: nat): (t': Tiling)
    requires IsLive(t.blocks, o) && LeftOf(t.blocks, o, l) && RightOf(t.blocks, End(t.blocks, o), r)
  {
    var c := Merged(t.blocks, o, l, r);
    var kept := KeptFree(t, o, l, r);
    var live := Without(t.live, o);
    if End(t.blocks, o) + r == t.bump then
      t.(bump := o - l, blocks := c - {o - l}, list := kept, live := live)
    else
      t.(blocks := c, list := [o - l] + kept, live := live)
  }

  lemma MergedTiled(b: Blocks, bump: nat, o: nat, l: nat, r: nat)
    requires Tiled(b, bump) && IsLive(b, o) && LeftOf(b, o, l) && RightOf(b, End(b, o), r)
    ensures Tiled(Merged(b, o, l, r), bump)
  {
    hide Tiled;
    var b0 := Retag(b, o, Free);
    RetagTiled(b, bump, o, Free);
    if l > 0 {
      JoinTiled(b0, bump, o - l);
    }
    var b1 := if l > 0 then Join(b0, o - l, o) else b0;
    if r > 0 {
      assert End(b1, o - l) == End(b, o);
      JoinTiled(b1, bump, o - l);
    }
  }

  /** Merging touches `o` and the free neighbours only. */
  lemma MergedElsewhere(b: Blocks, bump: nat, o: nat, l: nat, r: nat, p: nat)
    requires Placed(b, bump) && IsLive(b, o) && LeftOf(b, o, l) && RightOf(b, End(b, o), r)
    requires p != o - l
    ensures p in Merged(b, o, l, r) <==> p in b && p != o && (r == 0 || p != End(b, o))
    ensures p in Merged(b, o, l, r) ==> Merged(b, o, l, r)[p] == b[p]
  {}

  lemma MergedCoalesced(b: Blocks, bump: nat, o: nat, l: nat, r: nat)
    requires Tiled(b, bump) && Coalesced(b, bump)
    requires IsLive(b, o) && LeftOf(b, o, l) && RightOf(b, End(b, o), r)
    ensures forall p {:trigger End(Merged(b, o, l, r), p)} ::
              IsFree(Merged(b, o, l, r), p) && p != o - l ==>
                End(Merged(b, o, l, r), p) != bump && End(Merged(b, o, l, r), p) != o - l
                && !IsFree(Merged(b, o, l, r), End(Merged(b, o, l, r), p))
    ensures !IsFree(Merged(b, o, l, r), End(b, o) + r)
  {
    hide Merged, Contiguous;
    var c := Merged(b, o, l, r);
    var e := End(b, o);
    forall p | IsFree(c, p) && p != o - l
      ensures End(c, p) != bump && End(c, p) != o - l && !IsFree(c, End(c, p))
    {
      MergedElsewhere(b, bump, o, l, r, p);
      assert End(c, p) == End(b, p);
      if End(b, p) == o - l {
        assert false;
      }
      MergedElsewhere(b, bump, o, l, r, End(b, p));
    }
    MergedElsewhere(b, bump, o, l, r, e + r);
    if r > 0 {
      assert End(b, e) == e + r;
    }
  }

  lemma ReleaseCoalesced(t: Tiling, o: nat, l: nat, r: nat)
    requires Tiled(t.blocks, t.bump) && Coalesced(t.blocks, t.bump)
    requires IsLive(t.blocks, o) && LeftOf(t.blocks, o, l) && RightOf(t.blocks, End(t.blocks, o), r)
    ensures var t' := Release(t, o, l, r); Coalesced(t'.blocks, t'.bump)
  {
    hide Tiled, Merged, LeftOf, RightOf;
    var c := Merged(t.blocks, o, l, r);
    MergedCoalesced(t.blocks, t.bump, o, l, r);
    var t' := Release(t, o, l, r);
    forall p | IsFree(t'.blocks, p)
      ensures End(t'.blocks, p) != t'.bump && !IsFree(t'.blocks, End(t'.blocks, p))
    {
      assert End(t'.blocks, p) == End(c, p);
    }
  }

  lemma ReleaseTiled(t: Tiling, o: nat, l: nat, r: nat)
    requires Tiled(t.blocks, t.bump)
    requires IsLive(t.blocks, o) && LeftOf(t.blocks, o, l) && RightOf(t.blocks, End(t.blocks, o), r)
    ensures var t' := Release(t, o, l, r); Tiled(t'.blocks, t'.bump)
  {
    hide Tiled, Merged;
    var c := Merged(t.blocks, o, l, r);
    MergedTiled(t.blocks, t.bump, o, l, r);
    if End(t.blocks, o) + r == t.bump {
      assert End(c, o - l) == t.bump;
      TruncateTiled(c, t.bump, o - l);
    }
  }

  lemma ReleaseAligned(t: Tiling, o: nat, l: nat, r: nat)
    requires Placed(t.blocks, t.bump) && Aligned(t.blocks, t.bump) && PointersInside(t.blocks)
    requires IsLive(t.blocks, o) && LeftOf(t.blocks, o, l) && RightOf(t.blocks, End(t.blocks, o), r)
    ensures var t' := Release(t, o, l, r); Aligned(t'.blocks, t'.bump) && PointersInside(t'.blocks)
  {
    hide Merged, PointerInside;
    var c := Merged(t.blocks, o, l, r);
    forall p | p in c && p != o - l ensures p in t.blocks && c[p] == t.blocks[p] {
      MergedElsewhere(t.blocks, t.bump, o, l, r, p);
    }
    SumsAligned(t.blocks, t.bump, o, l, r);
  }

  lemma SumsAligned(b: Blocks, bump: nat, o: nat, l: nat, r: nat)
    requires Aligned(b, bump)
    requires IsLive(b, o) && LeftOf(b, o, l) && RightOf(b, End(b, o), r)
    ensures (o - l) % 16 == 0 && (l + b[o].size + r) % 16 == 0
  {
    assert l % 16 == 0 && r % 16 == 0;
  }

  /** What a release leaves on the free list. */
  lemma ReleaseFree(t: Tiling, o: nat, l: nat, r: nat)
    requires Listed(t.blocks, t.list, t.live)
    requires IsLive(t.blocks, o) && LeftOf(t.blocks, o, l) && RightOf(t.blocks, End(t.blocks, o), r)
    ensures Distinct(KeptFree(t, o, l, r))
    ensures forall p :: p in KeptFree(t, o, l, r) <==>
              IsFree(t.blocks, p) && (l == 0 || p != o - l) && (r == 0 || p != End(t.blocks, o))
    ensures forall p :: p in KeptFree(t, o, l, r) ==> p in t.blocks
    ensures Total(t.blocks, KeptFree(t, o, l, r)) == Total(t.blocks, t.list) - l - r
  {
    hide Distinct, Total;
    var l1 := if l > 0 then Without(t.list, o - l) else t.list;
    if l > 0 {
      WithoutKeeps(t.list, o - l);
      TotalWithout(t.blocks, t.list, o - l);
    }
    assert forall p :: p in l1 <==> IsFree(t.blocks, p) && (l == 0 || p != o - l);
    if r > 0 {
      WithoutKeeps(l1, End(t.blocks, o));
      TotalWithout(t.blocks, l1, End(t.blocks, o));
    }
  }

  lemma HeadIsMember(s: seq<nat>)
    requires s != []
    ensures s[0] in s
  {}

  lemma DistinctCons(x: nat, s: seq<nat>)
    requires Distinct(s) && x !in s
    ensures Distinct([x] + s)
  {}

  lemma ReleaseFreeListed(t: Tiling, o: nat, l: nat, r: nat)
    requires Placed(t.blocks, t.bump) && Listed(t.blocks, t.list, t.live)
    requires IsLive(t.blocks, o) && LeftOf(t.blocks, o, l) && RightOf(t.blocks, End(t.blocks, o), r)
    ensures var t' := Release(t, o, l, r); Distinct(t'.list) && forall p :: p in t'.list <==> IsFree(t'.blocks, p)
  {
    hide Merged, KeptFree, Distinct, RightOf, Placed;
    ReleaseFree(t, o, l, r);
    var t' := Release(t, o, l, r);
    var kept := KeptFree(t, o, l, r);
    DistinctCons(o - l, kept);
    forall p ensures p in t'.list <==> IsFree(t'.blocks, p) {
      if p >= 0 && p != o - l {
        MergedElsewhere(t.blocks, t.bump, o, l, r, p);
      }
      assert p in [o - l] + kept <==> p == o - l || p in kept;
    }
  }

  lemma ReleaseListed(t: Tiling, o: nat, l: nat, r: nat)
    requires Placed(t.blocks, t.bump) && Listed(t.blocks, t.list, t.live)
    requires IsLive(t.blocks, o) && LeftOf(t.blocks, o, l) && RightOf(t.blocks, End(t.blocks, o), r)
    ensures var t' := Release(t, o, l, r); Listed(t'.blocks, t'.list, t'.live)
  {
    hide Merged, KeptFree, Distinct, Placed;
    ReleaseFreeListed(t, o, l, r);
    WithoutKeeps(t.live, o);
    var t' := Release(t, o, l, r);
    forall p ensures p in t'.live <==> IsLive(t'.blocks, p) {
      if p >= 0 && p != o - l {
        MergedElsewhere(t.blocks, t.bump, o, l, r, p);
      }
    }
  }

  lemma ReleaseAccounted(t: Tiling, o: nat, l: nat, r: nat)
    requires Placed(t.blocks, t.bump) && Accounted(t)
    requires IsLive(t.blocks, o) && LeftOf(t.blocks, o, l) && RightOf(t.blocks, End(t.blocks, o), r)
    ensures var t' := Release(t, o, l, r);
            Accounted(t') && Total(t'.blocks, t'.live) == Total(t.blocks, t.live) - t.blocks[o].size
  {
    hide Merged, KeptFree, Distinct, LeftOf, RightOf;
    ReleaseListed(t, o, l, r);
    ReleaseFree(t, o, l, r);
    WithoutKeeps(t.live, o);
    TotalWithout(t.blocks, t.live, o);
    var t' := Release(t, o, l, r);
    var kept := KeptFree(t, o, l, r);
    forall p | p in kept ensures p in t'.blocks && t'.blocks[p].size == t.blocks[p].size {
      MergedElsewhere(t.blocks, t.bump, o, l, r, p);
    }
    forall p | p in t'.live ensures p in t'.blocks && t'.blocks[p].size == t.blocks[p].size {
      MergedElsewhere(t.blocks, t.bump, o, l, r, p);
    }
    TotalSame(t.blocks, t'.blocks, kept);
    TotalSame(t.blocks, t'.blocks, t'.live);
    if t'.list != kept {
      assert t'.list[1..] == kept;
    }
  }

  lemma ReleaseKeeps(t: Tiling, o: nat, l: nat, r: nat)
    requires Inv(t)
    requires IsLive(t.blocks, o) && LeftOf(t.blocks, o, l) && RightOf(t.blocks, End(t.blocks, o), r)
    ensures Inv(Release(t, o, l, r))
  {
    hide Contiguous, Separate, Coalesced, Accounted, Aligned, PointersInside, LeftOf, RightOf, Merged;
    ReleaseTiled(t, o, l, r);
    ReleaseCoalesced(t, o, l, r);
    ReleaseAligned(t, o, l, r);
    ReleaseAccounted(t, o, l, r);
  }

  /** The block that ends at the bump is live. */
  lemma LastIsLive(t: Tiling) returns (p: nat)
    requires Inv(t) && t.bump > 0
    ensures p in t.live && End(t.blocks, p) == t.bump
  {
    p := Before(t.blocks, t.bump, t.bump);
    assert !IsFree(t.blocks, p);
  }

  /** With nothing live the heap is back where it started. */
  lemma NothingLive(t: Tiling)
    requires Inv(t) && t.live == []
    ensures t == Empty(t.len)
  {
    if t.bump > 0 {
      var p := LastIsLive(t);
    }
    assert t.blocks == map[];
    if t.list != [] {
      HeadIsMember(t.list);
    }
  }

  // ---- whole runs ----

  /** Size of the free block that ends at `o`, 0 when there is none. */
  ghost function LeftFree(b: Blocks, o: nat): (l: nat) {
    if p :| IsFree(b, p) && End(b, p) == o then b[p].size else 0
  }

  ghost function RightFree(b: Blocks, e: nat): (r: nat) {
    if IsFree(b, e) then b[e].size else 0
  }

  /** A block has one left neighbour at most, so `LeftOf` and `RightOf`
      each single out one number. */
  lemma NeighboursKnown(b: Blocks, bump: nat, o: nat, l: nat, r: nat)
    requires Tiled(b, bump) && o in b
    ensures LeftOf(b, o, LeftFree(b, o)) && RightOf(b, End(b, o), RightFree(b, End(b, o)))
    ensures LeftOf(b, o, l) ==> l == LeftFree(b, o)
    ensures RightOf(b, End(b, o), r) ==> r == RightFree(b, End(b, o))
  {
    forall p | IsFree(b, p) && End(b, p) == o ensures LeftFree(b, o) == b[p].size {
      forall q | IsFree(b, q) && End(b, q) == o ensures q == p {
        assert p < q || q < p || q == p;
      }
    }
    if l > 0 && LeftOf(b, o, l) {
      assert IsFree(b, o - l) && End(b, o - l) == o;
    }
  }

  /** Bytes to reserve for a layout: header, payload, footer, room for the
      back pointer and the slack of a larger alignment. */
  function BlockNeed(size: nat, align: nat): (n: nat)
    ensures n % 16 == 0 && MIN_BLOCK <= n
    ensures HDR + size + FTR <= n && (align > 16 ==> HDR + 8 + align + size + FTR <= n)
    ensures n <= HDR + 8 + size + (if align > 16 then align else 0) + FTR + 16
  {
    var raw := if align <= 16 then HDR + size + FTR else HDR + 8 + align + size + FTR;
    var rounded := AlignUp(raw, 16);
    if rounded < MIN_BLOCK then MIN_BLOCK else rounded
  }

  lemma ModBound(x: nat, align: nat)
    requires align > 0
    ensures (x / align) * align <= x < (x / align) * align + align
    ensures ((x / align) * align) % align == 0
  {}

  /** Round up to a multiple of `align`. */
  function AlignUp(x: nat, align: nat): (r: nat)
    requires align > 0
    ensures r % align == 0
    ensures x <= r < x + align
  {
    ModBound(x + align - 1, align);
    (x + align - 1) / align * align
  }

  /** The alignment of a layout. */
  predicate Power2(a: nat) {
    a == 1 || (a > 1 && a % 2 == 0 && Power2(a / 2))
  }

  type Align = a: nat | a > 0 && Power2(a) witness 1

  lemma HalfPower(a: nat)
    requires Power2(a) && a > 1
    ensures a % 2 == 0 && Power2(a / 2)
  {}

  lemma Power2Over16(a: nat)
    requires Power2(a)
    ensures a > 16 ==> a % 16 == 0
  {
    if a > 16 {
      var b := a / 2;
      var c := b / 2;
      var d := c / 2;
      HalfPower(a);
      HalfPower(b);
      HalfPower(c);
      HalfPower(d);
      hide Power2;
      assert a == 16 * (d / 2);
    }
  }

  lemma MultipleOf16(x: nat, a: nat)
    requires a > 0 && a % 16 == 0 && x % a == 0
    ensures x % 16 == 0
  {
    var m, q := a / 16, x / a;
    assert x == 16 * m * q;
    assert x == 16 * (m * q);
  }

  /** Offset of the pointer handed out for the block at `o` of a heap whose
      buffer starts at address `base`. */
  function UserOf(base: nat, o: nat, align: nat): (u: nat)
    requires align > 0
    ensures o + HDR <= u
    ensures align <= 16 ==> u == o + HDR
    ensures align > 16 ==> (base + u) % align == 0 && o + HDR + 8 <= u < o + HDR + 8 + align
  {
    if align <= 16 then o + HDR else AlignUp(base + o + HDR + 8, align) - base
  }

  lemma UserAligned(base: nat, o: nat, align: Align)
    requires base % 16 == 0 && o % 16 == 0
    ensures UserOf(base, o, align) % 16 == 0
  {
    hide UserOf;
    var u := UserOf(base, o, align);
    if align > 16 {
      Power2Over16(align);
      MultipleOf16(base + u, align);
      Less16(base, u);
    } else {
      Less16(o, HDR);
    }
  }

  lemma Less16(x: nat, y: nat)
    requires x % 16 == 0
    ensures (x + y) % 16 == y % 16
  {
    var q, r := x / 16, y / 16;
    assert x + y == 16 * (q + r) + y % 16;
  }

  /** What a caller may do: ask for a layout, or give a live block back. */
  datatype Op = Get(size: nat, align: Align) | Give(o: nat)

  function AtLeastOne(size: nat): nat {
    if size == 0 then 1 else size
  }

  ghost predicate Servable(t: Tiling, size: nat, align: Align) {
    align <= 4096 && AtLeastOne(size) <= t.len
  }

  ghost function Apply(t: Tiling, base: nat, op: Op): (r: (Tiling, Option<nat>))
    requires Inv(t)
  {
    match op
    case Get(size, align) =>
      if Servable(t, size, align) then
        Alloc(t, BlockNeed(AtLeastOne(size), align), o => UserOf(base, o, align))
      else (t, None)
    case Give(o) =>
      if IsLive(t.blocks, o) then
        NeighboursKnown(t.blocks, t.bump, o, 0, 0);
        (Release(t, o, LeftFree(t.blocks, o), RightFree(t.blocks, End(t.blocks, o))), None)
      else (t, None)
  }

  lemma ApplyKeeps(t: Tiling, base: nat, op: Op)
    requires Inv(t) && base % 16 == 0
    ensures Inv(Apply(t, base, op).0) && Apply(t, base, op).0.len == t.len
  {
    match op
    case Get(size, align) =>
      if Servable(t, size, align) {
        var need := BlockNeed(AtLeastOne(size), align);
        var k := FirstFit(t.blocks, t.list, need, 0);
        if k < |t.list| {
          assert t.list[k] in t.list;
          UserAligned(base, t.list[k], align);
          TakeFreeKeeps(t, k, need, UserOf(base, t.list[k], align));
        } else if t.bump + need <= t.len {
          UserAligned(base, t.bump, align);
          TakeBumpKeeps(t, need, UserOf(base, t.bump, align));
        }
      }
    case Give(o) =>
      if IsLive(t.blocks, o) {
        NeighboursKnown(t.blocks, t.bump, o, 0, 0);
        ReleaseKeeps(t, o, LeftFree(t.blocks, o), RightFree(t.blocks, End(t.blocks, o)));
      }
  }

  /** A layout is refused exactly when it is outside the limits, or no free
      block is big enough and the bump has too little room. */
  lemma RefusedIff(t: Tiling, base: nat, size: nat, align: Align)
    requires Inv(t)
    ensures Apply(t, base, Get(size, align)).1.None? <==>
            || !Servable(t, size, align)
            || (&& t.bump + BlockNeed(AtLeastOne(size), align) > t.len
                && forall o :: IsFree(t.blocks, o) ==> t.blocks[o].size < BlockNeed(AtLeastOne(size), align))
    ensures Apply(t, base, Get(size, align)).1.None? ==> Apply(t, base, Get(size, align)).0 == t
  {
    hide Tiled, Aligned, Coalesced, PointersInside, Total, Distinct, BlockNeed, UserOf;
    if Servable(t, size, align) {
      var need := BlockNeed(AtLeastOne(size), align);
      var k := FirstFit(t.blocks, t.list, need, 0);
      assert k < |t.list| ==> t.list[k] in t.list;
    }
  }

  /** Taking a block makes it live, big enough, and leaves live blocks alone. */
  lemma TakenBlock(t: Tiling, need: nat, user: nat -> nat)
    requires Inv(t) && MIN_BLOCK <= need
    requires forall o :: o in t.list ==> o in t.blocks
    requires Alloc(t, need, user).1.Some?
    ensures var t' := Alloc(t, need, user).0;
            var o := Alloc(t, need, user).1.value;
            && IsLive(t'.blocks, o) && t'.blocks[o].use.user == user(o) && need <= t'.blocks[o].size
            && !IsLive(t.blocks, o) && t'.live == t.live + [o]
            && (forall p :: IsLive(t.blocks, p) ==> p in t'.blocks && t'.blocks[p] == t.blocks[p])
  {
    hide Coalesced, PointersInside, Total, Distinct, Tiled, Aligned, Without, FirstFit;
    var k := FirstFit(t.blocks, t.list, need, 0);
    if k < |t.list| {
      var o := t.list[k];
      assert o in t.list;
      if Splits(t.blocks[o].size, need) {
        CutTiled(t.blocks, t.bump, o, need);
      }
    } else {
      ExtendTiled(t.blocks, t.bump, Block(need, Live(user(t.bump))));
    }
  }

  lemma OthersClear(b: Blocks, bump: nat, o: nat)
    requires Tiled(b, bump) && o in b
    ensures End(b, o) <= bump
    ensures forall p :: p in b && p != o ==> End(b, p) <= o || End(b, o) <= p
  {
    forall p | p in b && p != o ensures End(b, p) <= o || End(b, o) <= p {
      assert p < o || o < p;
    }
  }

  /** What a pointer handed out promises: alignment, room for the payload
      inside its own block clear of header and footer, and a block that was
      nobody's. Every other live block stays as it was. */
  lemma GrantMeaning(t: Tiling, base: nat, size: nat, align: Align)
    requires Inv(t) && base % 16 == 0 && Apply(t, base, Get(size, align)).1.Some?
    ensures var t' := Apply(t, base, Get(size, align)).0;
            var o := Apply(t, base, Get(size, align)).1.value;
            var user := UserOf(base, o, align);
            && IsLive(t'.blocks, o) && t'.blocks[o].use.user == user && !IsLive(t.blocks, o)
            && t'.live == t.live + [o]
            && (base + user) % (if align <= 16 then 16 else align) == 0
            && o + HDR <= user && user + AtLeastOne(size) + FTR <= End(t'.blocks, o) <= t'.bump
            && (forall p :: p in t'.blocks && p != o ==> End(t'.blocks, p) <= o || End(t'.blocks, o) <= p)
            && (forall p :: IsLive(t.blocks, p) ==> p in t'.blocks && t'.blocks[p] == t.blocks[p])
  {
    hide Coalesced, PointersInside, Accounted, Tiled, UserOf, AlignUp, Alloc, BlockNeed;
    var t' := Apply(t, base, Get(size, align)).0;
    var o := Apply(t, base, Get(size, align)).1.value;
    ApplyKeeps(t, base, Get(size, align));
    ListedBlocks(t);
    TakenBlock(t, BlockNeed(AtLeastOne(size), align), o => UserOf(base, o, align));
    OthersClear(t'.blocks, t'.bump, o);
    assert o % 16 == 0;
  }

  lemma ListedBlocks(t: Tiling)
    requires Accounted(t)
    ensures forall o :: o in t.list ==> o in t.blocks
  {}

  ghost function Run(t: Tiling, base: nat, ops: seq<Op>): (r: Tiling)
    requires Inv(t) && base % 16 == 0
    ensures Inv(r) && r.len == t.len
    decreases |ops|
  {
    if ops == [] then t
    else ApplyKeeps(t, base, ops[0]); Run(Apply(t, base, ops[0]).0, base, ops[1..])
  }

  lemma EmptyInv(len: nat)
    ensures Inv(Empty(len))
  {}

  lemma GiveRetires(t: Tiling, base: nat, o: nat)
    requires Inv(t) && o in t.live
    ensures Apply(t, base, Give(o)).0.live == Without(t.live, o)
  {}

  function Gives(order: seq<nat>): seq<Op> {
    if order == [] then [] else [Give(order[0])] + Gives(order[1..])
  }

  /** Giving back every live block, in whatever order, empties the heap. */
  lemma {:induction false} GivingAllBack(t: Tiling, base: nat, order: seq<nat>)
    requires Inv(t) && base % 16 == 0 && Distinct(order) && forall o :: o in order <==> o in t.live
    ensures Run(t, base, Gives(order)) == Empty(t.len)
    decreases |order|
  {
    if order == [] {
      if t.live != [] {
        HeadIsMember(t.live);
      }
      NothingLive(t);
    } else {
      HeadIsMember(order);
      var o := order[0];
      ApplyKeeps(t, base, Give(o));
      GiveRetires(t, base, o);
      GiveBackRest(t, base, order);
      assert Gives(order)[1..] == Gives(order[1..]);
      GivingAllBack(Apply(t, base, Give(o)).0, base, order[1..]);
    }
  }

  lemma GiveBackRest(t: Tiling, base: nat, order: seq<nat>)
    requires Inv(t) && Distinct(order) && forall o :: o in order <==> o in t.live
    requires order != [] && Apply(t, base, Give(order[0])).0.live == Without(t.live, order[0])
    ensures Distinct(order[1..])
    ensures forall o :: o in order[1..] <==> o in Apply(t, base, Give(order[0])).0.live
  {
    hide Tiled, Aligned, Coalesced, PointersInside, Apply;
    WithoutKeeps(t.live, order[0]);
    assert forall o :: o in order <==> o == order[0] || o in order[1..];
  }
}
