/** The data part of one block request: a list of guest segments, served one
    after the other, that together move one stretch of the disk. */
module VirtioRequest {
  import opened Common
  import opened Bytes
  import opened GuestMemory
  import opened VirtioXfer

  datatype Seg = Seg(gpa: nat, len: nat, write: bool)

  function Sat32(v: nat): nat {
    if v < U32 then v else U32 - 1
  }

  /** Bytes in the first `k` segments. */
  function Offset(segs: seq<Seg>, k: nat): (n: nat)
    requires k <= |segs|
  {
    if k == 0 then 0 else Offset(segs, k - 1) + segs[k - 1].len
  }

  function Total(segs: seq<Seg>): nat {
    Offset(segs, |segs|)
  }

  lemma {:induction false} OffsetGrows(segs: seq<Seg>, j: nat, k: nat)
    requires j <= k <= |segs|
    ensures Offset(segs, j) <= Offset(segs, k)
  {
    if j < k {
      OffsetGrows(segs, j, k - 1);
    }
  }

  /** Where segment `k` starts on the disk. */
  function Source(sector: nat, segs: seq<Seg>, k: nat): nat
    requires k <= |segs|
  {
    Start(sector, Offset(segs, k))
  }

  /** Segment `k` can be served. */
  ghost predicate SegOk(p: Pages, size: nat, ty: nat, sector: nat, segs: seq<Seg>, k: nat)
    requires k < |segs|
  {
    || segs[k].len == 0
    || ((ty == T_IN || ty == T_OUT) && AllMapped(p, segs[k].gpa, segs[k].len)
        && Reaches(size, Source(sector, segs, k), segs[k].len))
  }

  /** No host byte lies under two segments. */
  ghost predicate Disjoint(p: Pages, segs: seq<Seg>) {
    forall j, k, h :: 0 <= j < k < |segs| && Under(p, segs[j].gpa, segs[j].len, h) ==>
      !Under(p, segs[k].gpa, segs[k].len, h)
  }

  predicate NoneWritable(segs: seq<Seg>) {
    forall k :: 0 <= k < |segs| ==> !segs[k].write
  }

  /** Every segment begins on a sector boundary of the request. */
  predicate SectorAligned(segs: seq<Seg>) {
    forall k :: 0 <= k < |segs| ==> Offset(segs, k) % SECTOR == 0
  }

  /** Guest bytes of segment `k` and the disk bytes they stand for agree. */
  ghost predicate Matches(p: Pages, ram: seq<byte>, disk: seq<byte>, sector: nat, segs: seq<Seg>, k: nat)
    requires k < |segs|
  {
    forall i :: 0 <= i < segs[k].len && Source(sector, segs, k) + i < |disk| ==>
      && Has(p, segs[k].gpa, i) && At(p, segs[k].gpa, i) < |ram|
      && ram[At(p, segs[k].gpa, i)] == disk[Source(sector, segs, k) + i]
  }

  /** A segment that has been moved matches the disk afterwards. */
  lemma MovedMatches(p: Pages, ram: seq<byte>, disk: seq<byte>, stale: seq<byte>, ty: nat, sector: nat, segs: seq<Seg>, k: nat)
    requires k < |segs| && |stale| == CHUNK && ((ty == T_IN && segs[k].write) || ty == T_OUT)
    requires Moved(p, ram, disk, stale, segs[k].gpa, Start(sector, Offset(segs, k)), segs[k].len, ty, segs[k].write)
    ensures Matches(p, ram, disk, sector, segs, k)
  {
    hide Has, At, Start;
    var g, start := segs[k].gpa, Source(sector, segs, k);
    forall i | 0 <= i < segs[k].len && start + i < |disk|
      ensures Has(p, g, i) && At(p, g, i) < |ram| && ram[At(p, g, i)] == disk[start + i]
    {
      assert ByteMoved(p, ram, disk, stale, g, start, i, ty, segs[k].write);
    }
  }

  /** Writing under segment `k` leaves what segment `j` holds alone. */
  lemma MatchesFrame(p: Pages, ram: seq<byte>, ram': seq<byte>, disk: seq<byte>, sector: nat, segs: seq<Seg>, j: nat, k: nat)
    requires j < k < |segs| && Matches(p, ram, disk, sector, segs, j) && Disjoint(p, segs) && |ram| == |ram'|
    requires forall h :: 0 <= h < |ram| && !Under(p, segs[k].gpa, segs[k].len, h) ==> ram'[h] == ram[h]
    ensures Matches(p, ram', disk, sector, segs, j)
  {
    hide Has, At;
    forall i | 0 <= i < segs[j].len && Source(sector, segs, j) + i < |disk|
      ensures ram'[At(p, segs[j].gpa, i)] == disk[Source(sector, segs, j) + i]
    {
      assert Under(p, segs[j].gpa, segs[j].len, At(p, segs[j].gpa, i));
    }
  }

  /** A disk store confined to segment `k` leaves earlier segments alone. */
  lemma MatchesDisk(p: Pages, ram: seq<byte>, disk: seq<byte>, disk': seq<byte>, sector: nat, segs: seq<Seg>, j: nat, k: nat)
    requires j < k < |segs| && Matches(p, ram, disk, sector, segs, j) && SectorAligned(segs) && |disk| == |disk'|
    requires forall x :: 0 <= x < |disk| && !(Source(sector, segs, k) <= x < Source(sector, segs, k) + segs[k].len) ==>
               disk'[x] == disk[x]
    ensures Matches(p, ram, disk', sector, segs, j)
  {
    hide Has, At;
    OffsetGrows(segs, j + 1, k);
    SourceAligned(sector, segs, j);
    SourceAligned(sector, segs, k);
  }

  lemma SourceAligned(sector: nat, segs: seq<Seg>, k: nat)
    requires k < |segs| && SectorAligned(segs)
    ensures Source(sector, segs, k) == sector * SECTOR + Offset(segs, k)
  {}

  lemma SourceWithin(sector: nat, segs: seq<Seg>, k: nat)
    requires k < |segs|
    ensures sector * SECTOR <= Source(sector, segs, k)
    ensures Source(sector, segs, k) + segs[k].len <= sector * SECTOR + Total(segs)
  {
    OffsetGrows(segs, k + 1, |segs|);
    assert Offset(segs, k) / SECTOR * SECTOR <= Offset(segs, k);
  }

  /** `b` is `a` except perhaps in the `n` bytes at `lo`. */
  predicate SameBut(a: seq<byte>, b: seq<byte>, lo: nat, n: nat) {
    |a| == |b| && forall y :: 0 <= y < |a| && !(lo <= y < lo + n) ==> b[y] == a[y]
  }

  ghost predicate UnderAny(p: Pages, segs: seq<Seg>, h: int) {
    exists k :: 0 <= k < |segs| && segs[k].write && Under(p, segs[k].gpa, segs[k].len, h)
  }

  // ---- the request as one copy ----

  /** The guest bytes under the first `k` segments, in order. */
  ghost function Gather(p: Pages, ram: seq<byte>, segs: seq<Seg>, k: nat): (s: seq<byte>)
    requires k <= |segs|
    requires forall j, i :: 0 <= j < k && 0 <= i < segs[j].len ==> Has(p, segs[j].gpa, i) && At(p, segs[j].gpa, i) < |ram|
    ensures |s| == Offset(segs, k)
  {
    if k == 0 then []
    else Gather(p, ram, segs, k - 1)
         + seq(segs[k - 1].len, i requires 0 <= i < segs[k - 1].len => ram[At(p, segs[k - 1].gpa, i)])
  }

  /** Segments that match one by one are, strung together, the requested
      stretch of the disk. */
  lemma {:induction false} FlatCopy(p: Pages, ram: seq<byte>, disk: seq<byte>, sector: nat, segs: seq<Seg>, k: nat)
    requires k <= |segs| && SectorAligned(segs) && sector * SECTOR + Offset(segs, k) <= |disk|
    requires forall j :: 0 <= j < k ==> Matches(p, ram, disk, sector, segs, j)
    requires forall j, i :: 0 <= j < k && 0 <= i < segs[j].len ==> Has(p, segs[j].gpa, i) && At(p, segs[j].gpa, i) < |ram|
    ensures Gather(p, ram, segs, k) == disk[sector * SECTOR..sector * SECTOR + Offset(segs, k)]
  {
    hide Has, At;
    if k > 0 {
      FlatCopy(p, ram, disk, sector, segs, k - 1);
      SourceAligned(sector, segs, k - 1);
      var a, b := sector * SECTOR + Offset(segs, k - 1), sector * SECTOR + Offset(segs, k);
      assert disk[sector * SECTOR..b] == disk[sector * SECTOR..a] + disk[a..b];
      assert b == a + segs[k - 1].len;
      var t := seq(segs[k - 1].len, i requires 0 <= i < segs[k - 1].len => ram[At(p, segs[k - 1].gpa, i)]);
      assert Matches(p, ram, disk, sector, segs, k - 1);
      forall i | 0 <= i < |t| ensures t[i] == disk[a + i] {
        assert Source(sector, segs, k - 1) + i == a + i < |disk|;
      }
      assert t == disk[a..b];
    }
  }

  /** The guest's segments, strung together, are the requested stretch of the
      disk. */
  ghost predicate Flat(p: Pages, ram: seq<byte>, disk: seq<byte>, sector: nat, segs: seq<Seg>) {
    && (forall j, i :: 0 <= j < |segs| && 0 <= i < segs[j].len ==>
          Has(p, segs[j].gpa, i) && At(p, segs[j].gpa, i) < |ram|)
    && sector * SECTOR + Total(segs) <= |disk|
    && Gather(p, ram, segs, |segs|) == disk[sector * SECTOR..sector * SECTOR + Total(segs)]
  }

  /** A served request, read or write, is one flat copy between the guest's
      segments and the requested stretch of the disk. */
  lemma RequestIsFlat(p: Pages, ram: seq<byte>, disk: seq<byte>, sector: nat, segs: seq<Seg>)
    requires Sound(p, |ram|) && SectorAligned(segs) && sector * SECTOR + Total(segs) <= |disk|
    requires forall k :: 0 <= k < |segs| ==> AllMapped(p, segs[k].gpa, segs[k].len) && Matches(p, ram, disk, sector, segs, k)
    ensures Flat(p, ram, disk, sector, segs)
  {
    hide Has, At, Sound, Matches, SectorAligned;
    forall j, i | 0 <= j < |segs| && 0 <= i < segs[j].len ensures Has(p, segs[j].gpa, i) && At(p, segs[j].gpa, i) < |ram| {
      AtInside(p, |ram|, segs[j].gpa, i);
    }
    FlatCopy(p, ram, disk, sector, segs, |segs|);
  }

  /** The sector rounding is harmless exactly when every segment that moves
      bytes begins on a sector boundary: otherwise that segment is served
      from the wrong place. */
  lemma RoundingIff(sector: nat, segs: seq<Seg>)
    ensures SectorAligned(segs) <==>
            forall k :: 0 <= k < |segs| ==> Source(sector, segs, k) == sector * SECTOR + Offset(segs, k)
  {
    forall k | 0 <= k < |segs|
      ensures Offset(segs, k) % SECTOR == 0 <==> Source(sector, segs, k) == sector * SECTOR + Offset(segs, k)
    {
      assert Offset(segs, k) == Offset(segs, k) / SECTOR * SECTOR + Offset(segs, k) % SECTOR;
    }
  }

  /** A sector split over two segments: the second is served from the start of
      the sector again instead of byte 100. */
  lemma SplitSectorMisplaced(gpa: nat)
    ensures var segs := [Seg(gpa, 100, true), Seg(gpa + 100, 412, true)];
            Offset(segs, 1) == 100 && Source(7, segs, 1) == 7 * SECTOR != 7 * SECTOR + Offset(segs, 1)
  {
    var segs := [Seg(gpa, 100, true), Seg(gpa + 100, 412, true)];
    assert Offset(segs, 1) == Offset(segs, 0) + 100;
  }

  /** Bytes of the device-writable (or device-readable) segments before `k`. */
  function Counted(segs: seq<Seg>, write: bool, k: nat): (n: nat)
    requires k <= |segs|
  {
    if k == 0 then 0 else Counted(segs, write, k - 1) + if segs[k - 1].write == write then segs[k - 1].len else 0
  }

  class Server {
    const x: Transfer

    ghost predicate Valid() {
      x.Valid()
    }

    constructor (x: Transfer)
      requires x.Valid()
      ensures Valid() && this.x == x
    {
      this.x := x;
    }

    /** Serve the segments in order; the first that fails ends the request. */
    method ServeSegs(ty: nat, sector: nat, segs: seq<Seg>) returns (status: nat, inLen: nat, reqBytes: nat)
      requires Valid() && forall k :: 0 <= k < |segs| ==> segs[k].len < U32
      modifies x.mem.ram, x.disk, x.bounce
      ensures status == S_OK || status == S_IOERR
      ensures status == S_OK <==>
              forall k :: 0 <= k < |segs| ==> SegOk(x.mem.pages, x.disk.Length, ty, sector, segs, k)
      ensures status == S_OK ==> inLen == Sat32(Counted(segs, true, |segs|))
      ensures status == S_OK ==> reqBytes == if ty == T_OUT then Sat32(Counted(segs, false, |segs|)) else 0
      ensures inLen < U32
      ensures forall h :: 0 <= h < x.mem.ram.Length && !UnderAny(x.mem.pages, segs, h) ==>
                x.mem.ram[h] == old(x.mem.ram[h])
      ensures ty != T_OUT ==> x.disk[..] == old(x.disk[..])
      ensures SameBut(old(x.disk[..]), x.disk[..], sector * SECTOR, Total(segs))
      ensures status == S_OK && ty == T_IN && Disjoint(x.mem.pages, segs) ==>
                forall k :: 0 <= k < |segs| && segs[k].write ==>
                  Matches(x.mem.pages, x.mem.ram[..], x.disk[..], sector, segs, k)
      ensures status == S_OK && ty == T_OUT && SectorAligned(segs) && (NoneWritable(segs) || Disjoint(x.mem.pages, segs)) ==>
                forall k :: 0 <= k < |segs| ==> Matches(x.mem.pages, x.mem.ram[..], x.disk[..], sector, segs, k)
    {
      hide Has, At, Sound, SegOk, Matches, Disjoint, SectorAligned, Source, UnderAny, AllMapped, Under;
      ghost var p := x.mem.pages;
      var byteOff := 0;
      inLen, reqBytes := 0, 0;
      var k := 0;
      while k < |segs|
        invariant 0 <= k <= |segs| && byteOff == Offset(segs, k)
        invariant inLen == Sat32(Counted(segs, true, k))
        invariant reqBytes == if ty == T_OUT then Sat32(Counted(segs, false, k)) else 0
        invariant forall j :: 0 <= j < k ==> SegOk(p, x.disk.Length, ty, sector, segs, j)
        invariant forall h :: 0 <= h < x.mem.ram.Length && !UnderAny(p, segs, h) ==> x.mem.ram[h] == old(x.mem.ram[h])
        invariant ty != T_OUT ==> x.disk[..] == old(x.disk[..])
        invariant SameBut(old(x.disk[..]), x.disk[..], sector * SECTOR, Total(segs))
        invariant ty == T_IN && Disjoint(p, segs) ==>
                    forall j :: 0 <= j < k && segs[j].write ==> Matches(p, x.mem.ram[..], x.disk[..], sector, segs, j)
        invariant ty == T_OUT && SectorAligned(segs) && (NoneWritable(segs) || Disjoint(p, segs)) ==>
                    forall j :: 0 <= j < k ==> Matches(p, x.mem.ram[..], x.disk[..], sector, segs, j)
      {
        var s := segs[k];
        var st, w := ServeOneSeg(ty, sector, segs, k, byteOff);
        reqBytes := Sat32(reqBytes + w);
        if st != S_OK {
          return st, inLen, reqBytes;
        }
        if s.write {
          inLen := Sat32(inLen + s.len);
        }
        byteOff := byteOff + s.len;
        k := k + 1;
      }
      return S_OK, inLen, reqBytes;
    }

    /** Segment `k`, with what the earlier ones left in place. */
    method ServeOneSeg(ty: nat, sector: nat, segs: seq<Seg>, k: nat, byteOff: nat) returns (st: nat, w: nat)
      requires Valid() && k < |segs| && segs[k].len < U32 && byteOff == Offset(segs, k)
      modifies x.mem.ram, x.disk, x.bounce
      ensures st == S_OK || st == S_IOERR
      ensures st == S_OK <==> SegOk(x.mem.pages, x.disk.Length, ty, sector, segs, k)
      ensures st == S_OK ==> w == if ty == T_OUT && !segs[k].write then segs[k].len else 0
      ensures forall h :: 0 <= h < x.mem.ram.Length && !UnderAny(x.mem.pages, segs, h) ==>
                x.mem.ram[h] == old(x.mem.ram[h])
      ensures ty != T_OUT ==> x.disk[..] == old(x.disk[..])
      ensures SameBut(old(x.disk[..]), x.disk[..], sector * SECTOR, Total(segs))
      ensures st == S_OK && ty == T_IN && segs[k].write ==>
                Matches(x.mem.pages, x.mem.ram[..], x.disk[..], sector, segs, k)
      ensures st == S_OK && ty == T_OUT ==>
                Matches(x.mem.pages, x.mem.ram[..], x.disk[..], sector, segs, k)
      ensures ty == T_IN && Disjoint(x.mem.pages, segs) ==>
                forall j :: 0 <= j < k && old(Matches(x.mem.pages, x.mem.ram[..], x.disk[..], sector, segs, j)) ==>
                  Matches(x.mem.pages, x.mem.ram[..], x.disk[..], sector, segs, j)
      ensures ty == T_OUT && SectorAligned(segs) && (!segs[k].write || Disjoint(x.mem.pages, segs)) ==>
                forall j :: 0 <= j < k && old(Matches(x.mem.pages, x.mem.ram[..], x.disk[..], sector, segs, j)) ==>
                  Matches(x.mem.pages, x.mem.ram[..], x.disk[..], sector, segs, j)
    {
      hide Sound, Disjoint, SectorAligned, Under, Has, At, Start, Moved, Matches;
      ghost var p := x.mem.pages;
      ghost var ram0, disk0, stale := x.mem.ram[..], x.disk[..], x.bounce[..];
      var s := segs[k];
      SourceWithin(sector, segs, k);
      st, w := x.XferDataSeg(ty, sector, byteOff, s.gpa, s.len, s.write);
      ghost var ram1, disk1 := x.mem.ram[..], x.disk[..];
      if st == S_OK && ((ty == T_IN && s.write) || ty == T_OUT) {
        MovedMatches(p, ram1, disk1, stale, ty, sector, segs, k);
      }
      forall j | 0 <= j < k && ty == T_IN && Disjoint(p, segs) && Matches(p, ram0, disk0, sector, segs, j)
        ensures Matches(p, ram1, disk1, sector, segs, j)
      {
        MatchesFrame(p, ram0, ram1, disk0, sector, segs, j, k);
      }
      forall j | 0 <= j < k && ty == T_OUT && SectorAligned(segs) && (!s.write || Disjoint(p, segs))
                 && Matches(p, ram0, disk0, sector, segs, j)
        ensures Matches(p, ram1, disk1, sector, segs, j)
      {
        if s.write {
          MatchesFrame(p, ram0, ram1, disk0, sector, segs, j, k);
        }
        MatchesDisk(p, ram1, disk0, disk1, sector, segs, j, k);
      }
    }
  }
}
