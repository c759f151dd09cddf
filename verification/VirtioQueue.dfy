/** The split virtqueue of the block device (section 2.6 of Virtio 1.1): the
    descriptor chain of one request, and the drain that turns published avail
    entries into used entries. Guest memory is arbitrary throughout. */
module VirtioQueue {
  import opened Common
  import opened Bytes
  import opened GuestMemory
  import opened VirtioXfer
  import opened VirtioRequest

  const T_FLUSH: nat := 4
  const T_GET_ID: nat := 8
  const QUEUE_MAX: nat := 128
  const DATA_SEGS: nat := 128
  const HDR_LEN: nat := 16
  const NOTIFY: nat := 0x300

  /** How many entries `idx` is behind `published`, counting modulo 2^16. */
  function Behind(idx: nat, published: nat): (n: nat)
    requires idx < U16 && published < U16
    ensures n < U16
  {
    if idx <= published then published - idx else published + U16 - idx
  }

  lemma Advance(start: nat, served: nat, published: nat)
    requires published < U16 && (start + served) % U16 != published
    ensures ((start + served) % U16 + 1) % U16 == (start + served + 1) % U16
    ensures Behind((start + served + 1) % U16, published) == Behind((start + served) % U16, published) - 1
  {
    var idx := (start + served) % U16;
    assert (start + served + 1) % U16 == if idx == U16 - 1 then 0 else idx + 1;
  }

  // ---- reading guest memory ----

  /** What `n` reads at `g` leave in a buffer that held `dst`. */
  ghost function ReadInto(p: Pages, ram: seq<byte>, g: nat, dst: seq<byte>): (r: seq<byte>)
    requires Sound(p, |ram|)
    ensures |r| == |dst|
  {
    seq(|dst|, i requires 0 <= i < |dst| =>
      if i < Prefix(p, g, |dst|) then AtInside(p, |ram|, g, i); ram[At(p, g, i)] else dst[i])
  }

  /** The little-endian word of `n` guest bytes at `g`. */
  ghost function GuestWord(p: Pages, ram: seq<byte>, g: nat, n: nat): (v: nat)
    requires Sound(p, |ram|)
    ensures v < Pow256(n)
  {
    FromLE(ReadInto(p, ram, g, Zeros(n)))
  }

  /** Guest bytes that hold `s` read back as `s`. */
  ghost predicate Holds(p: Pages, ram: seq<byte>, g: nat, s: seq<byte>) {
    AllMapped(p, g, |s|) && forall i :: 0 <= i < |s| ==> At(p, g, i) < |ram| && ram[At(p, g, i)] == s[i]
  }

  lemma HoldsWord(p: Pages, ram: seq<byte>, g: nat, v: nat, n: nat)
    requires Sound(p, |ram|) && Holds(p, ram, g, ToLE(v, n)) && v < Pow256(n)
    ensures GuestWord(p, ram, g, n) == v
  {
    hide Sound, Has, At, FromLE, ToLE;
    FromToLE(v, n);
    assert ReadInto(p, ram, g, Zeros(n)) == ToLE(v, n);
  }

  lemma HoldsParts(p: Pages, ram: seq<byte>, g: nat, a: seq<byte>, b: seq<byte>)
    requires Holds(p, ram, g, a + b)
    ensures Holds(p, ram, g, a) && Holds(p, ram, g + |a|, b)
  {
    Shifted(p, g, |a|);
    hide Has, At;
    forall i | 0 <= i < |a|
      ensures Has(p, g, i) && At(p, g, i) < |ram| && ram[At(p, g, i)] == a[i]
    {
      assert (a + b)[i] == a[i];
    }
    var h := g + |a|;
    forall i | 0 <= i < |b|
      ensures Has(p, h, i) && At(p, h, i) < |ram| && ram[At(p, h, i)] == b[i]
    {
      assert (a + b)[|a| + i] == b[i];
      assert Has(p, g, |a| + i);
    }
  }

  /** Zeros survive zeros stored over them. */
  lemma ZerosKept(p: Pages, ram: seq<byte>, ram': seq<byte>, g: nat, n: nat, k: nat, m: nat)
    requires Holds(p, ram, g, Zeros(n)) && Holds(p, ram', k, Zeros(m)) && |ram| == |ram'|
    requires forall h :: 0 <= h < |ram| && !Under(p, k, m, h) ==> ram'[h] == ram[h]
    ensures Holds(p, ram', g, Zeros(n))
  {
    hide Has, At;
    forall i | 0 <= i < n
      ensures ram'[At(p, g, i)] == 0
    {
      if Under(p, k, m, At(p, g, i)) {
        var j :| 0 <= j < m && Has(p, k, j) && At(p, k, j) == At(p, g, i);
        assert Zeros(m)[j] == 0;
      }
    }
  }

  /** A store elsewhere leaves held bytes alone. */
  lemma HoldsFrame(p: Pages, ram: seq<byte>, ram': seq<byte>, g: nat, s: seq<byte>, k: nat, n: nat)
    requires Holds(p, ram, g, s) && |ram| == |ram'|
    requires forall h :: 0 <= h < |ram| && !Under(p, k, n, h) ==> ram'[h] == ram[h]
    requires forall i :: 0 <= i < |s| ==> !Under(p, k, n, At(p, g, i))
    ensures Holds(p, ram', g, s)
  {
    hide Has, At;
  }

  /** The used index and a used element never share a byte. */
  lemma RingApart(p: Pages, size: nat, used: nat, slot: nat, i: nat)
    requires Sound(p, size) && slot < U16 && i < 8 && Has(p, used + 4 + slot * 8, i)
    ensures !Under(p, used + 2, 2, At(p, used + 4 + slot * 8, i))
  {
    var g, e := used + 2, used + 4 + slot * 8;
    var off := 2 + slot * 8 + i;
    assert e + i == g + off;
    forall j | 0 <= j < 2 && Has(p, g, j) ensures At(p, g, j) != At(p, e, i) {
      OffsetsApart(p, size, g, j, off);
    }
  }

  // ---- descriptor chains ----

  datatype Desc = Desc(addr: nat, len: nat, next: Option<nat>, write: bool)

  /** The descriptor that sixteen table bytes spell. */
  function Decode(raw: seq<byte>): (d: Desc)
    requires |raw| == 16
    ensures d.len < U32 && d.addr < U64
  {
    Pow256Values();
    var flags := FromLE(raw[12..14]);
    var next := FromLE(raw[14..16]);
    Desc(FromLE(raw[0..8]), FromLE(raw[8..12]), if flags % 2 == 1 then Some(next) else None, flags / 2 % 2 == 1)
  }

  ghost function DescAt(p: Pages, ram: seq<byte>, table: nat, idx: nat): (d: Option<Desc>)
    requires Sound(p, |ram|)
  {
    var g := table + idx * 16;
    if AllMapped(p, g, 16) then Some(Decode(ReadInto(p, ram, g, Zeros(16)))) else None
  }

  /** What a walk has collected: the request header, the data segments, the
      status byte's address, and how many table entries it has read. */
  datatype Walk = Walk(hdr: seq<byte>, gotHdr: bool, segs: seq<Seg>, status: nat, hops: nat)

  const WALK0: Walk := Walk(Zeros(HDR_LEN), false, [], 0, 0)

  predicate Sane(w: Walk) {
    && |w.hdr| == HDR_LEN && |w.segs| <= DATA_SEGS && w.status < U64
    && forall k :: 0 <= k < |w.segs| ==> 0 < w.segs[k].len < U32
  }

  function Type(w: Walk): nat
    requires Sane(w)
  {
    FromLE(w.hdr[0..4])
  }

  function Sector(w: Walk): nat
    requires Sane(w)
  {
    FromLE(w.hdr[8..16])
  }

  /** A request that moves sectors, as opposed to a flush, an identity
      request, a refused write or a chain without data. */
  predicate MovesSectors(w: Walk, readonly: bool)
    requires Sane(w)
  {
    && Type(w) != T_FLUSH && Type(w) != T_GET_ID
    && !(readonly && Type(w) == T_OUT) && w.segs != []
  }

  /** The effect of one descriptor; `false` when the walk stops here. */
  ghost function Absorb(p: Pages, ram: seq<byte>, w: Walk, d: Desc): (r: (Walk, bool))
    requires Sound(p, |ram|) && Sane(w) && d.len < U32 && d.addr < U64
    ensures Sane(r.0) && r.0.hops == w.hops
  {
    if !w.gotHdr && d.len >= HDR_LEN then
      var hdr := ReadInto(p, ram, d.addr, w.hdr);
      if AllMapped(p, d.addr, HDR_LEN) then (w.(hdr := hdr, gotHdr := true), true) else (w.(hdr := hdr), false)
    else if d.write && d.len == 1 && w.status == 0 then
      (w.(status := d.addr), true)
    else if d.len > 0 && |w.segs| < DATA_SEGS then
      (w.(segs := w.segs + [Seg(d.addr, d.len, d.write)]), true)
    else
      (w, true)
  }

  /** Follow the chain from descriptor `desc`. The hop count bounds the walk
      whatever the table holds, a cycle included. */
  ghost function WalkFrom(p: Pages, ram: seq<byte>, table: nat, qsize: nat, desc: nat, chain: nat, w: Walk): (r: Walk)
    requires Sound(p, |ram|) && Sane(w) && chain <= qsize + 1
    ensures Sane(r)
    ensures w.hops <= r.hops <= w.hops + (qsize + 1 - chain)
    decreases qsize + 1 - chain
  {
    if chain > qsize then w
    else
      var w1 := w.(hops := w.hops + 1);
      match DescAt(p, ram, table, desc)
      case None => w1
      case Some(d) =>
        var (w2, on) := Absorb(p, ram, w1, d);
        if on && d.next.Some? then WalkFrom(p, ram, table, qsize, d.next.value, chain + 1, w2) else w2
  }

  /** A chain laid out as section 5.2.6 asks: header, data, status byte. */
  ghost predicate WellFormed(p: Pages, ram: seq<byte>, table: nat, qsize: nat, idx: seq<nat>, ds: seq<Desc>)
    requires Sound(p, |ram|)
  {
    && 2 <= |ds| == |idx| <= qsize + 1 && |ds| - 2 <= DATA_SEGS
    && (forall k :: 0 <= k < |ds| ==> DescAt(p, ram, table, idx[k]) == Some(ds[k]) && ds[k].len < U32 && ds[k].addr < U64)
    && (forall k :: 0 <= k < |ds| - 1 ==> ds[k].next == Some(idx[k + 1]))
    && ds[|ds| - 1].next == None
    && ds[0].len >= HDR_LEN && AllMapped(p, ds[0].addr, HDR_LEN)
    && (forall k :: 1 <= k < |ds| - 1 ==> ds[k].len > 1)
    && ds[|ds| - 1].write && ds[|ds| - 1].len == 1 && ds[|ds| - 1].addr != 0
  }

  function DataSegs(ds: seq<Desc>, k: nat): (s: seq<Seg>)
    requires 1 <= k <= |ds|
    ensures |s| == k - 1
  {
    seq(k - 1, i requires 0 <= i < k - 1 => Seg(ds[i + 1].addr, ds[i + 1].len, ds[i + 1].write))
  }

  lemma WellFormedAt(p: Pages, ram: seq<byte>, table: nat, qsize: nat, idx: seq<nat>, ds: seq<Desc>, k: nat)
    requires Sound(p, |ram|) && WellFormed(p, ram, table, qsize, idx, ds) && 1 <= k < |ds|
    ensures |ds| == |idx| <= qsize + 1 && |ds| - 2 <= DATA_SEGS
    ensures DescAt(p, ram, table, idx[k]) == Some(ds[k]) && ds[k].len < U32 && ds[k].addr < U64
    ensures k < |ds| - 1 ==> ds[k].next == Some(idx[k + 1]) && ds[k].len > 1
    ensures k == |ds| - 1 ==> ds[k].next == None && ds[k].write && ds[k].len == 1 && ds[k].addr != 0
  {
    hide DescAt, Sound;
  }

  lemma {:induction false} WalkTail(p: Pages, ram: seq<byte>, table: nat, qsize: nat, idx: seq<nat>, ds: seq<Desc>, k: nat, w: Walk)
    requires Sound(p, |ram|) && Sane(w) && WellFormed(p, ram, table, qsize, idx, ds)
    requires 1 <= k < |ds| && w.gotHdr && w.segs == DataSegs(ds, k) && w.status == 0 && w.hops == k
    ensures WalkFrom(p, ram, table, qsize, idx[k], k, w)
            == Walk(w.hdr, true, DataSegs(ds, |ds| - 1), ds[|ds| - 1].addr, |ds|)
    decreases |ds| - k
  {
    hide WellFormed, DescAt, Sound;
    WellFormedAt(p, ram, table, qsize, idx, ds, k);
    var w1 := w.(hops := w.hops + 1);
    var (w2, on) := Absorb(p, ram, w1, ds[k]);
    if k < |ds| - 1 {
      assert w2.segs == DataSegs(ds, k + 1);
      WalkTail(p, ram, table, qsize, idx, ds, k + 1, w2);
    }
  }

  /** The request a well-formed chain spells. */
  ghost function Spelt(p: Pages, ram: seq<byte>, ds: seq<Desc>): (w: Walk)
    requires Sound(p, |ram|) && 2 <= |ds|
  {
    Walk(ReadInto(p, ram, ds[0].addr, Zeros(HDR_LEN)), true, DataSegs(ds, |ds| - 1), ds[|ds| - 1].addr, |ds|)
  }

  /** A well-formed chain is parsed as it was laid out. */
  lemma WalkWellFormed(p: Pages, ram: seq<byte>, table: nat, qsize: nat, idx: seq<nat>, ds: seq<Desc>)
    requires Sound(p, |ram|) && WellFormed(p, ram, table, qsize, idx, ds)
    ensures WalkFrom(p, ram, table, qsize, idx[0], 0, WALK0) == Spelt(p, ram, ds)
  {
    var w1 := WALK0.(hops := 1);
    var (w2, on) := Absorb(p, ram, w1, ds[0]);
    assert w2.segs == DataSegs(ds, 1);
    WalkTail(p, ram, table, qsize, idx, ds, 1, w2);
  }

  // ---- the configuration window ----

  /** Feature selectors and the driver's features, device status, interrupt
      status and a pending notification, queue select, size and enable, the
      three ring addresses as 24 bytes, and how many entries have been
      served. */
  datatype Config = Config(featSel: nat, drvSel: nat, drvFeat: nat, status: byte, isr: nat, notified: bool,
                           sel: nat, qsize: nat, enable: nat, rings: seq<byte>, idx: nat)

  /** `v` with byte `k` of its `n` replaced. */
  function WithByte(v: nat, n: nat, k: nat, b: byte): nat
    requires k < n
  {
    FromLE(ToLE(v, n)[k := b])
  }

  ghost function ByteWritten(c: Config, off: nat, b: byte): (r: Config)
    requires |c.rings| == 24
    ensures |r.rings| == 24
  {
    if off < 0x04 then c.(featSel := WithByte(c.featSel, 4, off, b))
    else if 0x08 <= off < 0x0C then c.(drvSel := WithByte(c.drvSel, 4, off - 0x08, b))
    else if 0x0C <= off < 0x10 then
      c.(drvFeat := WithByte(c.drvFeat, 8, off - 0x0C + (if c.drvSel == 0 then 0 else 4), b))
    else if off == 0x14 then
      if b == 0 then c.(status := 0, enable := 0, idx := 0, notified := false, isr := 0) else c.(status := b)
    else if 0x16 <= off < 0x18 then c.(sel := WithByte(c.sel, 2, off - 0x16, b))
    else if 0x18 <= off < 0x1A then
      var n := WithByte(c.qsize, 2, off - 0x18, b);
      if c.sel == 0 && 0 < n <= QUEUE_MAX then c.(qsize := n) else c
    else if 0x1C <= off < 0x1E then c.(enable := WithByte(c.enable, 2, off - 0x1C, b))
    else if 0x20 <= off < 0x38 then c.(rings := c.rings[off - 0x20 := b])
    else c
  }

  ghost function AllWritten(c: Config, off: nat, s: seq<byte>): (r: Config)
    requires |c.rings| == 24
    ensures |r.rings| == 24
    decreases |s|
  {
    if s == [] then c else AllWritten(ByteWritten(c, off, s[0]), off + 1, s[1..])
  }

  lemma LowByte(v: nat, n: nat)
    requires n > 0
    ensures ToLE(v, n) == [v % 256] + ToLE(v / 256, n - 1) && ToLE(v, n)[0] == v % 256
  {}

  /** A store into the ring addresses, of any size and at any offset, puts
      exactly its bytes there. */
  lemma {:induction false} RingsWritten(c: Config, off: nat, s: seq<byte>)
    requires |c.rings| == 24 && 0x20 <= off && off + |s| <= 0x38
    ensures AllWritten(c, off, s) == c.(rings := Put(c.rings, off - 0x20, s))
    decreases |s|
  {
    if s == [] {
      assert Put(c.rings, off - 0x20, s) == c.rings;
    } else {
      RingsWritten(ByteWritten(c, off, s[0]), off + 1, s[1..]);
      assert Put(c.rings[off - 0x20 := s[0]], off + 1 - 0x20, s[1..]) == Put(c.rings, off - 0x20, s);
    }
  }

  lemma TwoBytes(v: nat, b: byte)
    requires v < 256
    ensures WithByte(v, 2, 0, b) == b && WithByte(v, 2, 1, b) == v + 256 * b
  {
    assert ToLE(v, 2) == [v, 0];
    assert ToLE(v, 2)[0 := b] == [b, 0] && ToLE(v, 2)[1 := b] == [v, b];
    assert FromLE([b, 0]) == b + 256 * FromLE([0]);
    assert FromLE([v, b]) == v + 256 * FromLE([b]);
    assert [b, 0][1..] == [0] && [v, b][1..] == [b];
    assert FromLE([0]) == 0 && FromLE([b]) == b;
  }

  /** A 16-bit store to the queue size takes its low byte if that is a size,
      and is ignored otherwise: the bytes are judged one by one. */
  lemma SizeWritten(c: Config, lo: byte, hi: byte)
    requires |c.rings| == 24 && c.sel == 0 && 0 < c.qsize <= QUEUE_MAX
    ensures AllWritten(c, 0x18, [lo, hi]) == c.(qsize := if 0 < lo <= QUEUE_MAX then lo else c.qsize)
  {
    TwoBytes(c.qsize, lo);
    var c1 := ByteWritten(c, 0x18, lo);
    TwoBytes(c1.qsize, hi);
    assert [lo, hi][1..] == [hi] && [hi][1..] == [];
    assert AllWritten(c, 0x18, [lo, hi]) == AllWritten(c1, 0x19, [hi]);
    assert AllWritten(c1, 0x19, [hi]) == ByteWritten(c1, 0x19, hi);
  }

  /** So a size that is too large is ignored exactly when its low byte is no
      size or the current one: 0x140 sets 64. */
  lemma LargeSizeIgnoredIff(c: Config, n: nat)
    requires |c.rings| == 24 && c.sel == 0 && 0 < c.qsize <= QUEUE_MAX && QUEUE_MAX < n < U16
    ensures AllWritten(c, 0x18, ToLE(n, 2)) == c <==> n % 256 == 0 || n % 256 > QUEUE_MAX || n % 256 == c.qsize
    ensures n == 0x140 ==> AllWritten(c, 0x18, ToLE(n, 2)).qsize == 64
  {
    hide ToLE, AllWritten;
    TwoLE(n);
    SizeWritten(c, n % 256, n / 256);
  }

  lemma TwoLE(n: nat)
    requires n < U16
    ensures n / 256 < 256 && ToLE(n, 2) == [n % 256, n / 256]
  {}

  /** Guest memory and disk at one moment. */
  datatype Snap = Snap(ram: seq<byte>, disk: seq<byte>)

  class Queue {
    const s: Server
    const mem: GuestRam
    const readonly: bool
    var featSel: nat
    var drvSel: nat
    var drvFeat: nat
    var isr: nat
    var notified: bool
    var enable: nat
    var sel: nat
    var qsize: nat
    var table: nat
    var avail: nat
    var used: nat
    var status: byte
    var lastAvail: nat
    var usedIdx: nat

    /** The device has consumed exactly as many avail entries as it has
        published used entries. */
    ghost predicate Valid()
      reads this
    {
      && s.Valid() && mem == s.x.mem && qsize <= QUEUE_MAX
      && lastAvail == usedIdx < U16
    }

    constructor (s: Server, readonly: bool)
      requires s.Valid()
      ensures Valid() && this.s == s && this.readonly == readonly && lastAvail == 0
    {
      this.s := s;
      mem := s.x.mem;
      this.readonly := readonly;
      featSel, drvSel, drvFeat, isr, notified, enable := 0, 0, 0, 0, false, 0;
      sel, qsize, table, avail, used, status := 0, QUEUE_MAX, 0, 0, 0, 0;
      lastAvail, usedIdx := 0, 0;
    }

    /** The configuration window as the driver sees it. */
    ghost function Window(): (c: Config)
      requires Valid()
      reads this
      ensures |c.rings| == 24
    {
      Config(featSel, drvSel, drvFeat, status, isr, notified, sel, qsize, enable,
             ToLE(table, 8) + ToLE(avail, 8) + ToLE(used, 8), lastAvail)
    }

    method WriteByte(off: nat, b: byte)
      requires Valid()
      modifies this
      ensures Valid() && Window() == ByteWritten(old(Window()), off, b)
    {
      hide FromLE, ToLE, WithByte;
      if off < 0x14 {
        WriteFeature(off, b);
      } else if off == 0x14 {
        status := b;
        if status == 0 {
          enable, lastAvail, usedIdx := 0, 0, 0;
          notified, isr := false, 0;
        }
      } else if off < 0x20 {
        WriteQueue(off, b);
      } else if off < 0x38 {
        WriteRing(off, b);
      }
    }

    method WriteFeature(off: nat, b: byte)
      requires Valid() && off < 0x14
      modifies this`featSel, this`drvSel, this`drvFeat
      ensures Valid() && Window() == ByteWritten(old(Window()), off, b)
    {
      hide FromLE, ToLE, WithByte;
      if off < 0x04 {
        featSel := WithByte(featSel, 4, off, b);
      } else if 0x08 <= off < 0x0C {
        drvSel := WithByte(drvSel, 4, off - 0x08, b);
      } else if 0x0C <= off < 0x10 {
        drvFeat := WithByte(drvFeat, 8, off - 0x0C + (if drvSel == 0 then 0 else 4), b);
      }
    }

    method WriteQueue(off: nat, b: byte)
      requires Valid() && 0x14 < off < 0x20
      modifies this`sel, this`qsize, this`enable
      ensures Valid() && Window() == ByteWritten(old(Window()), off, b)
    {
      hide FromLE, ToLE, WithByte;
      if 0x16 <= off < 0x18 {
        sel := WithByte(sel, 2, off - 0x16, b);
      } else if 0x18 <= off < 0x1A {
        var n := WithByte(qsize, 2, off - 0x18, b);
        if sel == 0 && 0 < n <= QUEUE_MAX {
          qsize := n;
        }
      } else if 0x1C <= off < 0x1E {
        enable := WithByte(enable, 2, off - 0x1C, b);
      }
    }

    method WriteRing(off: nat, b: byte)
      requires Valid() && 0x20 <= off < 0x38
      modifies this`table, this`avail, this`used
      ensures Valid() && Window() == ByteWritten(old(Window()), off, b)
    {
      hide FromLE, ToLE;
      ghost var was := Window().rings;
      if off < 0x28 {
        ToFromLE(ToLE(table, 8)[off - 0x20 := b]);
        table := WithByte(table, 8, off - 0x20, b);
      } else if off < 0x30 {
        ToFromLE(ToLE(avail, 8)[off - 0x28 := b]);
        avail := WithByte(avail, 8, off - 0x28, b);
      } else {
        ToFromLE(ToLE(used, 8)[off - 0x30 := b]);
        used := WithByte(used, 8, off - 0x30, b);
      }
      assert Window().rings == was[off - 0x20 := b];
    }

    /** A store into the device's memory: the window, or the notify register. */
    method WriteMmio(off: nat, n: nat, val: nat)
      requires Valid()
      modifies this
      ensures Valid()
      ensures Window() == if off < 0x38 then AllWritten(old(Window()), off, ToLE(val, n))
                          else if off == NOTIFY then old(Window()).(notified := true)
                          else old(Window())
    {
      hide ToLE, AllWritten;
      if off < 0x38 {
        WriteConfig(off, n, val);
      } else if off == NOTIFY {
        notified := true;
      }
    }

    /** A store of `n` bytes into the window, low byte first. */
    method WriteConfig(off: nat, n: nat, val: nat)
      requires Valid()
      modifies this
      ensures Valid() && Window() == AllWritten(old(Window()), off, ToLE(val, n))
    {
      hide FromLE, ToLE, ByteWritten;
      ghost var b := ToLE(val, n);
      var i, rest := 0, val;
      while i < n
        invariant 0 <= i <= n && Valid() && b[i..] == ToLE(rest, n - i)
        invariant AllWritten(Window(), off + i, b[i..]) == AllWritten(old(Window()), off, b)
      {
        LowByte(rest, n - i);
        WriteByte(off + i, rest % 256);
        assert b[i..][1..] == b[i + 1..];
        rest := rest / 256;
        i := i + 1;
      }
    }

    /** Read guest bytes over the whole of `dst`. */
    method Fetch(g: nat, dst: array<byte>) returns (ok: bool)
      requires mem.Valid() && dst != mem.ram
      modifies dst
      ensures ok <==> AllMapped(mem.pages, g, dst.Length)
      ensures dst[..] == ReadInto(mem.pages, mem.ram[..], g, old(dst[..]))
    {
      ghost var was := dst[..];
      ok := mem.ReadBytes(g, dst, dst.Length);
      ghost var r := ReadInto(mem.pages, mem.ram[..], g, was);
      forall i | 0 <= i < |r| ensures dst[i] == r[i] {
        if i < Prefix(mem.pages, g, dst.Length) {
          AtInside(mem.pages, mem.ram.Length, g, i);
          assert r[i] == mem.ram[..][At(mem.pages, g, i)];
        } else {
          assert r[i] == was[i];
        }
      }
    }

    /** Walk one descriptor chain. Reads memory only. */
    method WalkChain(head: nat) returns (w: Walk)
      requires Valid()
      ensures w == WalkFrom(mem.pages, mem.ram[..], table, qsize, head, 0, WALK0)
    {
      hide Sound, AllMapped, ReadInto, Decode;
      ghost var p, ram := mem.pages, mem.ram[..];
      var hdr := new byte[HDR_LEN](_ => 0);
      assert hdr[..] == Zeros(HDR_LEN);
      w := WALK0;
      var desc, chain := head, 0;
      while chain <= qsize
        invariant chain <= qsize + 1 && Sane(w) && fresh(hdr) && hdr[..] == w.hdr && mem.ram[..] == ram
        invariant WalkFrom(p, ram, table, qsize, head, 0, WALK0) == WalkFrom(p, ram, table, qsize, desc, chain, w)
      {
        w := w.(hops := w.hops + 1);
        var raw := new byte[16](_ => 0);
        assert raw[..] == Zeros(16);
        var ok := Fetch(table + desc * 16, raw);
        if !ok {
          return;
        }
        var d := Decode(raw[..]);
        if !w.gotHdr && d.len >= HDR_LEN {
          ok := Fetch(d.addr, hdr);
          w := w.(hdr := hdr[..]);
          if !ok {
            return;
          }
          w := w.(gotHdr := true);
        } else if d.write && d.len == 1 && w.status == 0 {
          w := w.(status := d.addr);
        } else if d.len > 0 && |w.segs| < DATA_SEGS {
          w := w.(segs := w.segs + [Seg(d.addr, d.len, d.write)]);
        }
        if d.next.None? {
          return;
        }
        desc, chain := d.next.value, chain + 1;
      }
    }

    /** Store `b` over the guest bytes at `g`. */
    method Poke(g: nat, b: seq<byte>) returns (ok: bool)
      requires mem.Valid() && |b| <= U64
      modifies mem.ram
      ensures ok <==> AllMapped(mem.pages, g, |b|)
      ensures ok ==> Holds(mem.pages, mem.ram[..], g, b)
      ensures forall h :: 0 <= h < mem.ram.Length && !Under(mem.pages, g, |b|, h) ==> mem.ram[h] == old(mem.ram[h])
    {
      hide Has, At, Sound;
      var src := new byte[|b|](i requires 0 <= i < |b| => b[i]);
      forall i | 0 <= i < |b| && Has(mem.pages, g, i) ensures At(mem.pages, g, i) < mem.ram.Length {
        AtInside(mem.pages, mem.ram.Length, g, i);
      }
      ok := mem.WriteBytes(g, src, |b|);
    }

    /** The used element, then the used index that makes it visible. */
    method Publish(head: nat, len: nat) returns (ok: bool)
      requires Valid() && 0 < qsize && head < U16 && len < U32
      modifies mem.ram, this`lastAvail, this`usedIdx
      ensures Valid()
      ensures ok <==> Completable(0, old(usedIdx))
      ensures lastAvail == if ok then (old(lastAvail) + 1) % U16 else old(lastAvail)
      ensures ok ==> Published(mem.ram[..], old(usedIdx), head, len)
      ensures forall h :: 0 <= h < mem.ram.Length && !InRing(old(usedIdx), h) ==> mem.ram[h] == old(mem.ram[h])
    {
      hide Has, At, Sound, Under, Holds, ToLE, Published, FromLE;
      var slot := usedIdx % qsize;
      var elt := ToLE(head, 4) + ToLE(len, 4);
      ok := Poke(used + 4 + slot * 8, elt);
      if !ok {
        return;
      }
      ghost var ram1 := mem.ram[..];
      ok := Poke(used + 2, ToLE((usedIdx + 1) % U16, 2));
      if !ok {
        return;
      }
      ghost var e := used + 4 + slot * 8;
      forall i | 0 <= i < 8 ensures !Under(mem.pages, used + 2, 2, At(mem.pages, e, i)) {
        RingApart(mem.pages, mem.ram.Length, used, slot, i);
      }
      HoldsFrame(mem.pages, ram1, mem.ram[..], e, elt, used + 2, 2);
      HeldIsPublished(mem.ram[..], usedIdx, head, len);
      usedIdx := (usedIdx + 1) % U16;
      lastAvail := (lastAvail + 1) % U16;
    }

    /** The status byte, then the used ring. A page that is not there ends
        the drain with both indices where they were. */
    method Complete(head: nat, statusGpa: nat, status: nat, len: nat) returns (ok: bool)
      requires Valid() && 0 < qsize && head < U16 && status < 256 && len < U32
      modifies mem.ram, this`lastAvail, this`usedIdx
      ensures Valid()
      ensures ok <==> Completable(statusGpa, old(usedIdx))
      ensures lastAvail == if ok then (old(lastAvail) + 1) % U16 else old(lastAvail)
      ensures ok ==> Published(mem.ram[..], old(usedIdx), head, if statusGpa != 0 then Sat32(len + 1) else len)
      ensures ok && statusGpa != 0 && !InRing(old(usedIdx), At(mem.pages, statusGpa, 0)) ==>
                Holds(mem.pages, mem.ram[..], statusGpa, [status])
      ensures forall h :: 0 <= h < mem.ram.Length && !Completing(statusGpa, old(usedIdx), h) ==>
                mem.ram[h] == old(mem.ram[h])
    {
      hide Sound, Under, InRing, Published;
      var n := len;
      if statusGpa != 0 {
        ok := Poke(statusGpa, [status]);
        if !ok {
          return;
        }
        n := Sat32(n + 1);
      }
      ghost var ram1 := mem.ram[..];
      ok := Publish(head, n);
    }

    /** Host byte `h` may be written while entry `idx` is completed. */
    ghost predicate Completing(statusGpa: nat, idx: nat, h: nat)
      requires 0 < qsize
      reads this`used, this`qsize
    {
      InRing(idx, h) || (statusGpa != 0 && Under(mem.pages, statusGpa, 1, h))
    }

    ghost predicate Completable(statusGpa: nat, idx: nat)
      requires 0 < qsize
      reads this`used, this`qsize
    {
      && (statusGpa == 0 || AllMapped(mem.pages, statusGpa, 1))
      && AllMapped(mem.pages, used + 4 + idx % qsize * 8, 8) && AllMapped(mem.pages, used + 2, 2)
    }

    /** The used ring reads `head` and `len` at position `idx`, and an index
        one past it. */
    ghost predicate Published(ram: seq<byte>, idx: nat, head: nat, len: nat)
      requires Sound(mem.pages, |ram|) && 0 < qsize
      reads this`used, this`qsize
    {
      var e := used + 4 + idx % qsize * 8;
      && GuestWord(mem.pages, ram, e, 4) == head && GuestWord(mem.pages, ram, e + 4, 4) == len
      && GuestWord(mem.pages, ram, used + 2, 2) == (idx + 1) % U16
    }

    lemma HeldIsPublished(ram: seq<byte>, idx: nat, head: nat, len: nat)
      requires Sound(mem.pages, |ram|) && 0 < qsize && head < U32 && len < U32
      requires Holds(mem.pages, ram, used + 4 + idx % qsize * 8, ToLE(head, 4) + ToLE(len, 4))
      requires Holds(mem.pages, ram, used + 2, ToLE((idx + 1) % U16, 2))
      ensures Published(ram, idx, head, len)
    {
      hide Sound, ToLE;
      Pow256Values();
      var e := used + 4 + idx % qsize * 8;
      HoldsParts(mem.pages, ram, e, ToLE(head, 4), ToLE(len, 4));
      HoldsWord(mem.pages, ram, e, head, 4);
      HoldsWord(mem.pages, ram, e + 4, len, 4);
      HoldsWord(mem.pages, ram, used + 2, (idx + 1) % U16, 2);
    }

    ghost predicate InRing(idx: nat, h: nat)
      requires 0 < qsize
      reads this`used, this`qsize
    {
      Under(mem.pages, used + 4 + idx % qsize * 8, 8, h) || Under(mem.pages, used + 2, 2, h)
    }

    /** Zero one segment in 64-byte pieces. */
    method ZeroSeg(g: nat, len: nat) returns (ok: bool)
      requires mem.Valid() && len < U32
      modifies mem.ram
      ensures ok <==> AllMapped(mem.pages, g, len)
      ensures forall h :: 0 <= h < mem.ram.Length && !Under(mem.pages, g, len, h) ==> mem.ram[h] == old(mem.ram[h])
      ensures ok ==> Holds(mem.pages, mem.ram[..], g, Zeros(len))
    {
      hide Has, At, Sound, Under;
      ghost var p := mem.pages;
      var off := 0;
      while off < len
        invariant 0 <= off <= len
        invariant Holds(p, mem.ram[..], g, Zeros(off))
        invariant forall h :: 0 <= h < mem.ram.Length && !Under(p, g, len, h) ==> mem.ram[h] == old(mem.ram[h])
      {
        var n := Min(len - off, 64);
        Shifted(p, g, off);
        forall h | Under(p, g + off, n, h) ensures Under(p, g, len, h) {
          UnderPart(p, g, off, n, len, h);
        }
        forall i | 0 <= i < off ensures !Under(p, g + off, n, At(p, g, i)) {
          EarlierNotUnder(p, mem.ram.Length, g, off, n, i);
        }
        ok := Poke(g + off, Zeros(n));
        if !ok {
          return;
        }
        off := off + n;
      }
      return true;
    }

    /** An identity request: every device-writable segment reads as zeros. */
    method ServeId(segs: seq<Seg>) returns (status: nat, inLen: nat)
      requires mem.Valid() && forall k :: 0 <= k < |segs| ==> segs[k].len < U32
      modifies mem.ram
      ensures status == S_OK || status == S_IOERR
      ensures status == S_OK <==> forall k :: 0 <= k < |segs| && segs[k].write ==> AllMapped(mem.pages, segs[k].gpa, segs[k].len)
      ensures status == S_OK ==> inLen == Sat32(Counted(segs, true, |segs|))
      ensures status == S_OK ==>
                forall k :: 0 <= k < |segs| && segs[k].write ==> Holds(mem.pages, mem.ram[..], segs[k].gpa, Zeros(segs[k].len))
      ensures inLen < U32
      ensures forall h :: 0 <= h < mem.ram.Length && !UnderAny(mem.pages, segs, h) ==> mem.ram[h] == old(mem.ram[h])
    {
      hide AllMapped, Under, Holds, Zeros;
      inLen := 0;
      var k := 0;
      while k < |segs|
        invariant 0 <= k <= |segs|
        invariant inLen == Sat32(Counted(segs, true, k))
        invariant forall j :: 0 <= j < k && segs[j].write ==> AllMapped(mem.pages, segs[j].gpa, segs[j].len)
        invariant forall j :: 0 <= j < k && segs[j].write ==>
                    Holds(mem.pages, mem.ram[..], segs[j].gpa, Zeros(segs[j].len))
        invariant forall h :: 0 <= h < mem.ram.Length && !UnderAny(mem.pages, segs, h) ==> mem.ram[h] == old(mem.ram[h])
      {
        if segs[k].write {
          ghost var was := mem.ram[..];
          var ok := ZeroSeg(segs[k].gpa, segs[k].len);
          if !ok {
            return S_IOERR, inLen;
          }
          forall j | 0 <= j < k && segs[j].write
            ensures Holds(mem.pages, mem.ram[..], segs[j].gpa, Zeros(segs[j].len))
          {
            ZerosKept(mem.pages, was, mem.ram[..], segs[j].gpa, segs[j].len, segs[k].gpa, segs[k].len);
          }
          inLen := Sat32(inLen + segs[k].len);
        }
        k := k + 1;
      }
      return S_OK, inLen;
    }

    /** The status the request ends with. `flushOk` is the backing store's
        answer to a flush. Refused writes, chains without data and unknown
        types are errors. */
    ghost function Verdict(w: Walk, flushOk: bool): (v: nat)
      requires Sane(w)
      ensures v == S_OK || v == S_IOERR
    {
      var good :=
        if Type(w) == T_FLUSH then flushOk
        else if Type(w) == T_GET_ID then
          forall k :: 0 <= k < |w.segs| && w.segs[k].write ==> AllMapped(mem.pages, w.segs[k].gpa, w.segs[k].len)
        else
          && MovesSectors(w, readonly)
          && forall k :: 0 <= k < |w.segs| ==> SegOk(mem.pages, s.x.disk.Length, Type(w), Sector(w), w.segs, k);
      if good then S_OK else S_IOERR
    }

    /** Carry out what the request asks for. */
    method Dispatch(w: Walk, flushOk: bool) returns (status: nat, inLen: nat, written: nat)
      requires Valid() && Sane(w)
      modifies mem.ram, s.x.disk, s.x.bounce
      ensures status == Verdict(w, flushOk) && inLen < U32
      ensures forall h :: 0 <= h < mem.ram.Length && !UnderAny(mem.pages, w.segs, h) ==> mem.ram[h] == old(mem.ram[h])
      ensures !MovesSectors(w, readonly) || Type(w) != T_OUT ==> s.x.disk[..] == old(s.x.disk[..])
      ensures SameBut(old(s.x.disk[..]), s.x.disk[..], Sector(w) * SECTOR, Total(w.segs))
      ensures !MovesSectors(w, readonly) ==> written == 0
      ensures !MovesSectors(w, readonly) && Type(w) != T_GET_ID ==> inLen == 0 && mem.ram[..] == old(mem.ram[..])
      ensures MovesSectors(w, readonly) || Type(w) == T_GET_ID ==>
                status == S_OK ==> inLen == Sat32(Counted(w.segs, true, |w.segs|))
      ensures Type(w) == T_GET_ID && status == S_OK ==>
                forall k :: 0 <= k < |w.segs| && w.segs[k].write ==>
                  Holds(mem.pages, mem.ram[..], w.segs[k].gpa, Zeros(w.segs[k].len))
      ensures MovesSectors(w, readonly) && status == S_OK ==>
                written == if readonly && Type(w) == T_IN then Total(w.segs) % U32
                           else if Type(w) == T_OUT then Sat32(Counted(w.segs, false, |w.segs|)) else 0
      ensures MovesSectors(w, readonly) && status == S_OK && Type(w) == T_IN && Disjoint(mem.pages, w.segs) ==>
                forall k :: 0 <= k < |w.segs| && w.segs[k].write ==>
                  Matches(mem.pages, mem.ram[..], s.x.disk[..], Sector(w), w.segs, k)
      ensures MovesSectors(w, readonly) && status == S_OK && Type(w) == T_OUT && SectorAligned(w.segs)
              && (NoneWritable(w.segs) || Disjoint(mem.pages, w.segs)) ==>
                forall k :: 0 <= k < |w.segs| ==> Matches(mem.pages, mem.ram[..], s.x.disk[..], Sector(w), w.segs, k)
    {
      hide SegOk, Matches, Disjoint, SectorAligned, UnderAny, AllMapped, FromLE, Holds, Zeros;
      var ty, sector := Type(w), Sector(w);
      status, inLen, written := S_IOERR, 0, 0;
      if ty == T_FLUSH {
        status := if flushOk then S_OK else S_IOERR;
      } else if ty == T_GET_ID {
        status, inLen := ServeId(w.segs);
      } else if readonly && ty == T_OUT {
        status := S_IOERR;
      } else if |w.segs| > 0 {
        var bytes;
        status, inLen, bytes := s.ServeSegs(ty, sector, w.segs);
        written := if readonly && ty == T_IN && status == S_OK then Total(w.segs) % U32 else bytes;
      }
    }

    // ---- one avail entry ----

    /** The head that avail entry `idx` names in this guest memory. */
    ghost function Head(ram: seq<byte>, idx: nat): (h: nat)
      requires Sound(mem.pages, |ram|) && 0 < qsize
      reads this`avail, this`qsize
      ensures h < U16
    {
      Pow256Values();
      GuestWord(mem.pages, ram, avail + 4 + idx % qsize * 2, 2)
    }

    /** The request that avail entry `idx` names. */
    ghost function Request(ram: seq<byte>, idx: nat): (w: Walk)
      requires Sound(mem.pages, |ram|) && 0 < qsize
      reads this`avail, this`qsize, this`table
      ensures Sane(w) && w.hops <= qsize + 1
    {
      WalkFrom(mem.pages, ram, table, qsize, Head(ram, idx), 0, WALK0)
    }

    /** A read request whose buffers keep out of each other's way and out of
        the way of the status byte and the used ring. */
    ghost predicate CleanIn(w: Walk, idx: nat)
      requires 0 < qsize && Sane(w)
      reads this`used, this`qsize
    {
      && MovesSectors(w, readonly) && Type(w) == T_IN && w.status != 0 && AllMapped(mem.pages, w.status, 1)
      && (forall k :: 0 <= k < |w.segs| ==> w.segs[k].write && SegOk(mem.pages, s.x.disk.Length, T_IN, Sector(w), w.segs, k))
      && Disjoint(mem.pages, w.segs)
      && (forall h :: 0 <= h < mem.ram.Length && UnderAny(mem.pages, w.segs, h) ==> !Completing(w.status, idx, h))
      && !InRing(idx, At(mem.pages, w.status, 0))
    }

    ghost predicate CleanOut(w: Walk, idx: nat)
      requires 0 < qsize && Sane(w)
      reads this`used, this`qsize
    {
      && MovesSectors(w, readonly) && Type(w) == T_OUT && w.status != 0 && AllMapped(mem.pages, w.status, 1)
      && (forall k :: 0 <= k < |w.segs| ==> !w.segs[k].write && SegOk(mem.pages, s.x.disk.Length, T_OUT, Sector(w), w.segs, k))
      && SectorAligned(w.segs) && !InRing(idx, At(mem.pages, w.status, 0))
    }

    /** The request lies on the disk to its last byte, sector by sector. */
    ghost predicate OnDisk(w: Walk)
      requires Sane(w)
    {
      SectorAligned(w.segs) && Sector(w) * SECTOR + Total(w.segs) <= s.x.disk.Length
    }

    /** What serving request `w` as entry `idx` may change, served or not. */
    ghost predicate Confined(a: Snap, b: Snap, w: Walk, idx: nat)
      requires 0 < qsize && Sane(w)
      reads this`used, this`qsize
    {
      && |a.ram| == |b.ram|
      && (forall h :: 0 <= h < |a.ram| && !UnderAny(mem.pages, w.segs, h) && !Completing(w.status, idx, h) ==>
            b.ram[h] == a.ram[h])
      && SameBut(a.disk, b.disk, Sector(w) * SECTOR, Total(w.segs))
      && (!(MovesSectors(w, readonly) && Type(w) == T_OUT) ==> b.disk == a.disk)
    }

    lemma ConfinedSame(a: Snap, w: Walk, idx: nat)
      requires 0 < qsize && Sane(w)
      ensures Confined(a, a, w, idx)
    {}

    /** Request `w` has been served as entry `idx`: the used ring names it, the
        status byte tells its verdict, and a clean transfer is one flat copy
        between the guest's segments and the requested stretch of the disk. */
    ghost predicate Served(a: Snap, b: Snap, w: Walk, idx: nat, head: nat, flushOk: bool, len: nat)
      requires 0 < qsize && Sane(w) && Sound(mem.pages, |b.ram|)
      reads this`used, this`qsize
    {
      && Confined(a, b, w, idx) && Published(b.ram, idx, head, len)
      && (w.status != 0 ==> AllMapped(mem.pages, w.status, 1))
      && (w.status != 0 && !InRing(idx, At(mem.pages, w.status, 0)) ==>
            Holds(mem.pages, b.ram, w.status, [Verdict(w, flushOk)]))
      && (CleanIn(w, idx) ==>
            && Verdict(w, flushOk) == S_OK && len == Sat32(Sat32(Total(w.segs)) + 1)
            && forall k :: 0 <= k < |w.segs| ==> Matches(mem.pages, b.ram, b.disk, Sector(w), w.segs, k))
      && (CleanIn(w, idx) && OnDisk(w) ==> Flat(mem.pages, b.ram, b.disk, Sector(w), w.segs))
      && (CleanOut(w, idx) ==>
            && Verdict(w, flushOk) == S_OK && len == 1
            && forall k :: 0 <= k < |w.segs| ==> Matches(mem.pages, a.ram, b.disk, Sector(w), w.segs, k))
      && (CleanOut(w, idx) && OnDisk(w) ==> Flat(mem.pages, a.ram, b.disk, Sector(w), w.segs))
    }

    /** Data already delivered survives the completion of the request. */
    lemma MatchesKept(ram: seq<byte>, ram': seq<byte>, disk: seq<byte>, w: Walk, idx: nat, k: nat)
      requires 0 < qsize && Sane(w) && k < |w.segs| && |ram| == |ram'| && w.segs[k].write
      requires Matches(mem.pages, ram, disk, Sector(w), w.segs, k)
      requires forall h :: 0 <= h < |ram| && UnderAny(mem.pages, w.segs, h) ==> !Completing(w.status, idx, h)
      requires forall h :: 0 <= h < |ram| && !Completing(w.status, idx, h) ==> ram'[h] == ram[h]
      ensures Matches(mem.pages, ram', disk, Sector(w), w.segs, k)
    {
      hide Has, At, Completing, InRing, FromLE;
      var g := w.segs[k].gpa;
      forall i | 0 <= i < w.segs[k].len && Source(Sector(w), w.segs, k) + i < |disk|
        ensures ram'[At(mem.pages, g, i)] == ram[At(mem.pages, g, i)]
      {
        assert Under(mem.pages, g, w.segs[k].len, At(mem.pages, g, i));
        assert UnderAny(mem.pages, w.segs, At(mem.pages, g, i));
      }
    }

    lemma AllCounted(segs: seq<Seg>, k: nat)
      requires k <= |segs| && forall j :: 0 <= j < |segs| ==> segs[j].write
      ensures Counted(segs, true, k) == Offset(segs, k)
    {
      if k > 0 {
        AllCounted(segs, k - 1);
      }
    }

    lemma NoneCounted(segs: seq<Seg>, k: nat)
      requires k <= |segs| && forall j :: 0 <= j < |segs| ==> !segs[j].write
      ensures Counted(segs, true, k) == 0
      ensures forall h :: !UnderAny(mem.pages, segs, h)
    {
      if k > 0 {
        NoneCounted(segs, k - 1);
      }
    }

    /** Clean requests succeed, and their segments are all mapped. */
    lemma CleanMapped(w: Walk, idx: nat, flushOk: bool)
      requires 0 < qsize && Sane(w) && (CleanIn(w, idx) || CleanOut(w, idx))
      ensures Verdict(w, flushOk) == S_OK
      ensures forall k :: 0 <= k < |w.segs| ==> AllMapped(mem.pages, w.segs[k].gpa, w.segs[k].len)
    {
      hide AllMapped, Disjoint, SectorAligned, UnderAny, FromLE, Completing, InRing, At;
    }

    /** Carry the parsed request out and publish it. */
    method Execute(head: nat, w: Walk, flushOk: bool) returns (ok: bool, written: nat, ghost len: nat)
      requires Valid() && 0 < qsize && Sane(w) && head < U16
      modifies mem.ram, s.x.disk, s.x.bounce, this`lastAvail, this`usedIdx
      ensures Valid()
      ensures ok <==> Completable(w.status, old(usedIdx))
      ensures lastAvail == if ok then (old(lastAvail) + 1) % U16 else old(lastAvail)
      ensures Confined(old(Snap(mem.ram[..], s.x.disk[..])), Snap(mem.ram[..], s.x.disk[..]), w, old(usedIdx))
      ensures ok ==> len < U32 && Served(old(Snap(mem.ram[..], s.x.disk[..])), Snap(mem.ram[..], s.x.disk[..]), w,
                                         old(usedIdx), head, flushOk, len)
    {
      hide SegOk, Matches, Disjoint, SectorAligned, UnderAny, AllMapped, FromLE, Published, Completing, InRing, Holds,
           Sound, Has, At, SameBut, Counted, Offset, Flat, Verdict, Zeros;
      ghost var ram0 := mem.ram[..];
      ghost var idx := usedIdx;
      ghost var clean := CleanIn(w, idx);
      ghost var cleanOut := CleanOut(w, idx);
      if clean {
        AllCounted(w.segs, |w.segs|);
      }
      if cleanOut {
        NoneCounted(w.segs, |w.segs|);
      }
      if clean || cleanOut {
        CleanMapped(w, idx, flushOk);
      }
      var status, inLen;
      status, inLen, written := Dispatch(w, flushOk);
      ghost var ram1 := mem.ram[..];
      assert cleanOut ==> ram1 == ram0;
      len := if w.status != 0 then Sat32(inLen + 1) else inLen;
      ok := Complete(head, w.status, status, inLen);
      if ok && clean {
        forall k | 0 <= k < |w.segs| ensures Matches(mem.pages, mem.ram[..], s.x.disk[..], Sector(w), w.segs, k) {
          MatchesKept(ram1, mem.ram[..], s.x.disk[..], w, idx, k);
        }
        if OnDisk(w) {
          RequestIsFlat(mem.pages, mem.ram[..], s.x.disk[..], Sector(w), w.segs);
        }
      }
      if ok && cleanOut && OnDisk(w) {
        RequestIsFlat(mem.pages, ram0, s.x.disk[..], Sector(w), w.segs);
      }
    }

    /** Serve the next avail entry. `false` ends the drain. */
    method ServeOne(flushOk: bool) returns (ok: bool, written: nat, ghost len: nat)
      requires Valid() && 0 < qsize
      modifies mem.ram, s.x.disk, s.x.bounce, this`lastAvail, this`usedIdx
      ensures Valid()
      ensures ok <==> Servable(old(mem.ram[..]), old(lastAvail))
      ensures lastAvail == if ok then (old(lastAvail) + 1) % U16 else old(lastAvail)
      ensures Confined(old(Snap(mem.ram[..], s.x.disk[..])), Snap(mem.ram[..], s.x.disk[..]),
                       old(Request(mem.ram[..], lastAvail)), old(lastAvail))
      ensures ok ==> len < U32 && Step(old(Snap(mem.ram[..], s.x.disk[..])), Snap(mem.ram[..], s.x.disk[..]),
                                       old(lastAvail), flushOk, len)
    {
      hide AllMapped, FromLE, Completable, Sound, ReadInto, WalkFrom, Served, Confined, Sane;
      ConfinedSame(Snap(mem.ram[..], s.x.disk[..]), Request(mem.ram[..], lastAvail), lastAvail);
      var raw := new byte[2](_ => 0);
      assert raw[..] == Zeros(2);
      written, len := 0, 0;
      ok := Fetch(avail + 4 + lastAvail % qsize * 2, raw);
      if !ok {
        return;
      }
      var head := FromLE(raw[..]);
      assert head == Head(mem.ram[..], lastAvail);
      var w := WalkChain(head);
      ok, written, len := Execute(head, w, flushOk);
    }

    /** Entry `idx` can be served: its avail slot is mapped, and the pages its
        completion writes. */
    ghost predicate Servable(ram: seq<byte>, idx: nat)
      requires Sound(mem.pages, |ram|) && 0 < qsize
      reads this`avail, this`qsize, this`table, this`used
    {
      AllMapped(mem.pages, avail + 4 + idx % qsize * 2, 2) && Completable(Request(ram, idx).status, idx)
    }

    /** Entry `idx` as memory names it in `a` is served by `b`. */
    ghost predicate Step(a: Snap, b: Snap, idx: nat, flushOk: bool, len: nat)
      requires 0 < qsize && Sound(mem.pages, |a.ram|) && Sound(mem.pages, |b.ram|)
      reads this`avail, this`qsize, this`table, this`used
    {
      Servable(a.ram, idx) && Served(a, b, Request(a.ram, idx), idx, Head(a.ram, idx), flushOk, len)
    }

    lemma ChainRequest(idx: seq<nat>, ds: seq<Desc>)
      requires Valid() && 0 < qsize
      requires WellFormed(mem.pages, mem.ram[..], table, qsize, idx, ds) && idx[0] == Head(mem.ram[..], lastAvail)
      ensures 2 <= |ds| == |idx|
      ensures Request(mem.ram[..], lastAvail) == Spelt(mem.pages, mem.ram[..], ds)
      ensures Request(mem.ram[..], lastAvail).status == ds[|ds| - 1].addr
    {
      hide Sound, WalkFrom, Head, DescAt;
      WalkWellFormed(mem.pages, mem.ram[..], table, qsize, idx, ds);
    }

    /** For a chain laid out as the standard asks, what is served is what the
        descriptors spell. */
    method ServeChain(flushOk: bool, ghost idx: seq<nat>, ghost ds: seq<Desc>) returns (ok: bool, ghost len: nat)
      requires Valid() && 0 < qsize
      requires WellFormed(mem.pages, mem.ram[..], table, qsize, idx, ds) && idx[0] == Head(mem.ram[..], lastAvail)
      modifies mem.ram, s.x.disk, s.x.bounce, this`lastAvail, this`usedIdx
      ensures Valid()
      ensures ok <==> AllMapped(mem.pages, avail + 4 + old(lastAvail) % qsize * 2, 2)
                      && Completable(ds[|ds| - 1].addr, old(lastAvail))
      ensures ok ==> Sane(Spelt(mem.pages, old(mem.ram[..]), ds))
                     && Served(old(Snap(mem.ram[..], s.x.disk[..])), Snap(mem.ram[..], s.x.disk[..]),
                               Spelt(mem.pages, old(mem.ram[..]), ds), old(lastAvail), idx[0], flushOk, len)
    {
      hide AllMapped, Completable, Sound, Served, WellFormed, Sane, Spelt, Head, Request, Confined;
      ChainRequest(idx, ds);
      var written;
      ok, written, len := ServeOne(flushOk);
    }

    /** Serve avail entries until the published index is reached or a page is
        missing. `trace` holds memory and disk before each entry and after
        the last: every entry up to the stop is served, in order, and the
        drain stops early only at one that cannot be. */
    method Drain(flushOk: bool) returns (written: nat, served: nat, availIdx: nat, ghost trace: seq<Snap>, ghost lens: seq<nat>)
      requires Valid()
      modifies mem.ram, s.x.disk, s.x.bounce, this`lastAvail, this`usedIdx
      ensures Valid()
      ensures lastAvail == (old(lastAvail) + served) % U16 && served < U16
      ensures availIdx < U16
      ensures qsize == 0 || !AllMapped(mem.pages, avail + 2, 2) ==>
                served == 0 && mem.ram[..] == old(mem.ram[..]) && s.x.disk[..] == old(s.x.disk[..])
      ensures 0 < qsize && AllMapped(mem.pages, avail + 2, 2) ==>
                && availIdx == old(GuestWord(mem.pages, mem.ram[..], avail + 2, 2))
                && served + Behind(lastAvail, availIdx) == Behind(old(lastAvail), availIdx)
                && Traced(trace, lens, old(lastAvail), flushOk) && |lens| == served
                && trace[0] == old(Snap(mem.ram[..], s.x.disk[..]))
                && (lastAvail == availIdx ==> trace[served] == Snap(mem.ram[..], s.x.disk[..]))
                && (lastAvail != availIdx ==>
                      && !Servable(trace[served].ram, lastAvail)
                      && Confined(trace[served], Snap(mem.ram[..], s.x.disk[..]),
                                  Request(trace[served].ram, lastAvail), lastAvail))
    {
      hide AllMapped, FromLE, Sound, ReadInto, WalkFrom, Behind, Zeros, Sat32, Step, Servable, Confined, Head, Request, Traced;
      written, served, availIdx := 0, 0, 0;
      trace, lens := [Snap(mem.ram[..], s.x.disk[..])], [];
      if qsize == 0 {
        return;
      }
      var raw := new byte[2](_ => 0);
      assert raw[..] == Zeros(2);
      var ok := Fetch(avail + 2, raw);
      if !ok {
        return;
      }
      Pow256Values();
      availIdx := FromLE(raw[..]);
      TracedNone(trace, lastAvail, flushOk);
      while lastAvail != availIdx
        invariant Valid() && served + Behind(lastAvail, availIdx) == Behind(old(lastAvail), availIdx)
        invariant lastAvail == (old(lastAvail) + served) % U16
        invariant Traced(trace, lens, old(lastAvail), flushOk) && |lens| == served && |trace| == served + 1
        invariant trace[0] == old(Snap(mem.ram[..], s.x.disk[..]))
        invariant trace[served] == Snap(mem.ram[..], s.x.disk[..])
        decreases Behind(lastAvail, availIdx)
      {
        var w;
        ghost var len;
        Advance(old(lastAvail), served, availIdx);
        ok, w, len := ServeOne(flushOk);
        if !ok {
          return;
        }
        ghost var next := Snap(mem.ram[..], s.x.disk[..]);
        TracedOne(trace, lens, old(lastAvail), flushOk, next, len);
        trace, lens := trace + [next], lens + [len];
        written := Sat32(written + w);
        served := served + 1;
      }
    }

    /** A pass over the install disk: takes the notification, drains the queue
        if it is enabled, and says whether the line is to be raised. */
    method DrainDisk(flushOk: bool) returns (raise: bool, served: nat, ghost trace: seq<Snap>, ghost lens: seq<nat>)
      requires Valid()
      modifies mem.ram, s.x.disk, s.x.bounce, this`lastAvail, this`usedIdx, this`notified, this`isr
      ensures Valid() && !notified
      ensures raise <==> old(notified) || served > 0
      ensures isr == if old(notified) || served > 0 then 1 else old(isr)
      ensures enable == 0 ==> served == 0 && mem.ram[..] == old(mem.ram[..]) && s.x.disk[..] == old(s.x.disk[..])
      ensures enable != 0 && 0 < qsize && AllMapped(mem.pages, avail + 2, 2) ==>
                && Traced(trace, lens, old(lastAvail), flushOk) && |lens| == served
                && trace[0] == old(Snap(mem.ram[..], s.x.disk[..]))
                && (lastAvail != old(GuestWord(mem.pages, mem.ram[..], avail + 2, 2)) ==>
                      !Servable(trace[served].ram, lastAvail))
    {
      hide Traced, Servable, AllMapped, Sound, GuestWord, Confined, Request, Behind;
      var was := notified;
      notified := false;
      if was {
        isr := 1;
      }
      trace, lens := [], [];
      if enable == 0 {
        return was, 0, trace, lens;
      }
      var written, availIdx;
      written, served, availIdx, trace, lens := Drain(flushOk);
      if served > 0 {
        isr := 1;
      }
      raise := was || served > 0;
    }

    /** Entry after entry from `start`, each snapshot leads to the next. */
    ghost predicate Traced(trace: seq<Snap>, lens: seq<nat>, start: nat, flushOk: bool)
      requires 0 < qsize
      reads this`avail, this`qsize, this`table, this`used
    {
      && |trace| == |lens| + 1
      && (forall k :: 0 <= k < |trace| ==> Sound(mem.pages, |trace[k].ram|))
      && (forall k {:trigger lens[k]} :: 0 <= k < |lens| ==>
            lens[k] < U32 && Step(trace[k], trace[k + 1], (start + k) % U16, flushOk, lens[k]))
    }

    lemma TracedNone(trace: seq<Snap>, start: nat, flushOk: bool)
      requires 0 < qsize && |trace| == 1 && Sound(mem.pages, |trace[0].ram|)
      ensures Traced(trace, [], start, flushOk)
    {}

    lemma TracedOne(trace: seq<Snap>, lens: seq<nat>, start: nat, flushOk: bool, next: Snap, len: nat)
      requires 0 < qsize && Traced(trace, lens, start, flushOk) && Sound(mem.pages, |next.ram|) && len < U32
      requires |trace| > 0 && Sound(mem.pages, |trace[|lens|].ram|)
      requires Step(trace[|lens|], next, (start + |lens|) % U16, flushOk, len)
      ensures Traced(trace + [next], lens + [len], start, flushOk)
    {
      hide Step, Sound;
      var t, l := trace + [next], lens + [len];
      forall k | 0 <= k < |l|
        ensures l[k] < U32 && Step(t[k], t[k + 1], (start + k) % U16, flushOk, l[k])
      {
        if k < |lens| {
          assert t[k] == trace[k] && t[k + 1] == trace[k + 1] && l[k] == lens[k];
        }
      }
    }
  }
}
