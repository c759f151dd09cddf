/** Moving one data segment of a block request between guest memory and the
    flat disk: 64 KiB at a time through a bounce buffer, each piece split
    again at page boundaries on the guest side. */
module VirtioXfer {
  import opened Common
  import opened Bytes
  import opened GuestMemory

  const SECTOR: nat := 512
  const CHUNK: nat := 65536

  const T_IN: nat := 0
  const T_OUT: nat := 1
  const S_OK: nat := 0
  const S_IOERR: nat := 1

  /** Addition that stops at the largest 64-bit value. */
  function Sat64(v: nat): nat {
    if v < U64 then v else U64 - 1
  }

  /** Disk offset that byte 0 of a segment goes to: the sector the segment's
      offset in the request falls in, rounded down to its start. */
  function Start(sector: nat, byteOff: nat): nat {
    (sector + byteOff / SECTOR) * SECTOR
  }

  /** Can a segment be served at all? The last chunk must begin on the disk. */
  predicate Reaches(size: nat, start: nat, n: nat) {
    n > 0 ==> start + (n - 1) / CHUNK * CHUNK < size
  }

  lemma ChunkStart(sector: nat, byteOff: nat, done: nat)
    requires done % SECTOR == 0
    ensures Start(sector, byteOff + done) == Start(sector, byteOff) + done
  {
    assert (byteOff + done) / SECTOR == byteOff / SECTOR + done / SECTOR;
  }

  /** The sector arithmetic of one chunk, saturation included. */
  lemma ChunkPlace(sector: nat, byteOff: nat, done: nat, size: nat)
    requires done % CHUNK == 0 && size <= U64
    ensures var sec := Sat64(sector + (byteOff + done) / SECTOR);
            && (sec * SECTOR < size <==> Start(sector, byteOff) + done < size)
            && (sec * SECTOR < size ==> sec * SECTOR == Start(sector, byteOff) + done)
  {
    hide Start;
    var q := done / CHUNK;
    assert done == SECTOR * (128 * q);
    ChunkStart(sector, byteOff, done);
    StartWhole(sector, byteOff + done);
  }

  lemma StartWhole(sector: nat, off: nat)
    ensures Start(sector, off) == (sector + off / SECTOR) * SECTOR
  {}

  lemma ChunkReaches(size: nat, start: nat, n: nat, done: nat)
    requires done % CHUNK == 0 && done < n && start + done >= size
    ensures !Reaches(size, start, n)
  {
    assert done / CHUNK <= (n - 1) / CHUNK;
  }

  lemma ChunkOnDisk(size: nat, start: nat, n: nat, done: nat)
    requires done % CHUNK == 0 && done < n <= done + CHUNK && start + done < size
    ensures Reaches(size, start, n)
  {
    assert (n - 1) / CHUNK == done / CHUNK;
  }

  /** What a read delivers as byte `i`: the disk's byte, or past its end what
      the bounce buffer still held. */
  function Delivered(disk: seq<byte>, stale: seq<byte>, start: nat, i: nat): byte
    requires |stale| == CHUNK
  {
    if start + i < |disk| then disk[start + i]
    else if i < CHUNK then stale[i]
    else if start + i - CHUNK < |disk| then disk[start + i - CHUNK]
    else 0
  }

  /** Byte `i` of a segment after its transfer. A read fills device-writable
      segments. A write stores the guest's bytes from the others; for a
      device-writable one, disk and guest both get what the bounce buffer
      held. */
  ghost predicate ByteMoved(p: Pages, ram: seq<byte>, disk: seq<byte>, stale: seq<byte>, g: nat, start: nat, i: nat,
                            ty: nat, write: bool)
    requires |stale| == CHUNK
  {
    && Has(p, g, i) && At(p, g, i) < |ram|
    && (write && ty == T_IN ==> ram[At(p, g, i)] == Delivered(disk, stale, start, i))
    && (write && ty == T_OUT ==> ram[At(p, g, i)] == stale[i % CHUNK])
    && (write && ty == T_OUT && start + i < |disk| ==> disk[start + i] == stale[i % CHUNK])
    && (!write && ty == T_OUT && start + i < |disk| ==> disk[start + i] == ram[At(p, g, i)])
  }

  ghost predicate Moved(p: Pages, ram: seq<byte>, disk: seq<byte>, stale: seq<byte>, g: nat, start: nat, n: nat,
                        ty: nat, write: bool)
    requires |stale| == CHUNK
  {
    forall i :: 0 <= i < n ==> ByteMoved(p, ram, disk, stale, g, start, i, ty, write)
  }

  /** What the bounce buffer holds when the chunk at `done` begins. */
  ghost predicate Primed(bounce: seq<byte>, disk: seq<byte>, stale: seq<byte>, start: nat, done: nat, ty: nat, write: bool)
    requires |stale| == |bounce| == CHUNK
  {
    && ((write && ty == T_OUT) || done == 0 ==> bounce == stale)
    && (write && ty == T_IN && CHUNK <= done && start + done < |disk| ==>
          forall j :: 0 <= j < CHUNK ==> bounce[j] == disk[start + done - CHUNK + j])
  }

  /** Byte `j` of a chunk for disk offset `at`, by what the bounce buffer held. */
  ghost predicate ChunkByte(p: Pages, ram: seq<byte>, disk: seq<byte>, bounce: seq<byte>, g: nat, at: nat, j: nat,
                            ty: nat, write: bool)
    requires |bounce| == CHUNK && j < CHUNK
  {
    && Has(p, g, j) && At(p, g, j) < |ram|
    && (write && ty == T_IN ==> ram[At(p, g, j)] == if at + j < |disk| then disk[at + j] else bounce[j])
    && (write && ty == T_OUT ==> ram[At(p, g, j)] == bounce[j])
    && (write && ty == T_OUT && at + j < |disk| ==> disk[at + j] == bounce[j])
    && (!write && ty == T_OUT && at + j < |disk| ==> disk[at + j] == ram[At(p, g, j)])
  }

  ghost predicate ChunkMoved(p: Pages, ram: seq<byte>, disk: seq<byte>, bounce: seq<byte>, g: nat, at: nat, n: nat,
                             ty: nat, write: bool)
    requires |bounce| == CHUNK && n <= CHUNK
  {
    forall j :: 0 <= j < n ==> ChunkByte(p, ram, disk, bounce, g, at, j, ty, write)
  }

  lemma ByteShift(p: Pages, g: nat, done: nat, j: nat)
    requires Has(p, g + done, j)
    ensures Has(p, g, done + j) && At(p, g, done + j) == At(p, g + done, j)
  {
    assert g + done + j == g + (done + j);
  }

  /** The chunk's byte as a byte of the segment. */
  lemma ChunkByteMoved(p: Pages, ram: seq<byte>, disk: seq<byte>, bounce: seq<byte>, stale: seq<byte>, g: nat, start: nat,
                       done: nat, j: nat, ty: nat, write: bool)
    requires |bounce| == |stale| == CHUNK && j < CHUNK && done % CHUNK == 0 && start + done < |disk|
    requires Primed(bounce, disk, stale, start, done, ty, write)
             || (ty == T_OUT && (write ==> bounce == stale))
    requires ChunkByte(p, ram, disk, bounce, g + done, start + done, j, ty, write)
    ensures ByteMoved(p, ram, disk, stale, g, start, done + j, ty, write)
  {
    hide Has, At;
    ByteShift(p, g, done, j);
    assert (done + j) % CHUNK == j;
  }

  /** One chunk in the middle of a segment: what came before stays moved, and
      the chunk is. */
  lemma ChunkMoves(p: Pages, ram: seq<byte>, disk: seq<byte>, bounce: seq<byte>, ram1: seq<byte>, disk1: seq<byte>,
                   stale: seq<byte>, g: nat, start: nat, done: nat, take: nat, ty: nat, write: bool)
    requires |ram| == |ram1| && |disk| == |disk1| && |bounce| == |stale| == CHUNK
    requires done % CHUNK == 0 && 0 < take <= CHUNK && start + done < |disk|
    requires Primed(bounce, disk, stale, start, done, ty, write) && Moved(p, ram, disk, stale, g, start, done, ty, write)
    requires forall i :: 0 <= i < done && Has(p, g, i) ==> At(p, g, i) < |ram| && ram1[At(p, g, i)] == ram[At(p, g, i)]
    requires forall x :: 0 <= x < |disk| && !(start + done <= x < start + done + take) ==> disk1[x] == disk[x]
    requires ty != T_OUT ==> disk1 == disk
    requires ChunkMoved(p, ram1, disk1, bounce, g + done, start + done, take, ty, write) && (ty == T_IN || ty == T_OUT)
    ensures Moved(p, ram1, disk1, stale, g, start, done + take, ty, write)
  {
    hide Has, At, ChunkByte;
    forall i | 0 <= i < done + take
      ensures ByteMoved(p, ram1, disk1, stale, g, start, i, ty, write)
    {
      if i < done {
        assert ByteMoved(p, ram, disk, stale, g, start, i, ty, write);
      } else {
        assert ChunkByte(p, ram1, disk1, bounce, g + done, start + done, i - done, ty, write);
        ChunkByteMoved(p, ram1, disk1, bounce, stale, g, start, done, i - done, ty, write);
      }
    }
  }

  class Transfer {
    const mem: GuestRam
    const disk: array<byte>
    const bounce: array<byte>

    ghost predicate Valid() {
      && mem.Valid() && bounce.Length == CHUNK
      && disk != bounce && disk != mem.ram && bounce != mem.ram
      && disk.Length <= U64
    }

    constructor (mem: GuestRam, disk: array<byte>)
      requires mem.Valid() && disk != mem.ram && disk.Length <= U64
      ensures Valid() && this.mem == mem && this.disk == disk && fresh(bounce)
    {
      this.mem := mem;
      this.disk := disk;
      bounce := new byte[CHUNK](_ => 0);
    }

    /** One piece between the front of the bounce buffer and the disk. */
    method SectorRw(ty: nat, sec: nat, n: nat) returns (status: nat)
      requires Valid() && n <= CHUNK
      modifies disk, bounce
      ensures status == S_OK <==> 0 < n && sec * SECTOR < disk.Length && (ty == T_IN || ty == T_OUT)
      ensures status == S_OK || status == S_IOERR
      ensures forall x :: 0 <= x < disk.Length ==>
                disk[x] == if status == S_OK && ty == T_OUT && sec * SECTOR <= x < sec * SECTOR + n
                           then old(bounce[x - sec * SECTOR]) else old(disk[x])
      ensures forall i :: 0 <= i < bounce.Length ==>
                bounce[i] == if status == S_OK && ty == T_IN && i < n && sec * SECTOR + i < disk.Length
                             then old(disk[sec * SECTOR + i]) else old(bounce[i])
    {
      var off := sec * SECTOR;
      if off >= U64 {
        return S_IOERR;
      }
      if n == 0 || off >= disk.Length {
        return S_IOERR;
      }
      var k := Min(n, disk.Length - off);
      if ty == T_IN {
        forall i | 0 <= i < k {
          bounce[i] := disk[off + i];
        }
        return S_OK;
      } else if ty == T_OUT {
        forall i | 0 <= i < k {
          disk[off + i] := bounce[i];
        }
        return S_OK;
      }
      return S_IOERR;
    }

    /** One piece of a segment. `write` is the descriptor's device-writes flag. */
    method MoveChunk(ty: nat, sec: nat, g: nat, n: nat, write: bool) returns (status: nat)
      requires Valid() && 0 < n <= CHUNK
      modifies mem.ram, disk, bounce
      ensures status == S_OK || status == S_IOERR
      ensures status == S_OK <==>
              sec * SECTOR < disk.Length && (ty == T_IN || ty == T_OUT) && AllMapped(mem.pages, g, n)
      ensures !write ==> mem.ram[..] == old(mem.ram[..])
      ensures forall h :: 0 <= h < mem.ram.Length && !Under(mem.pages, g, n, h) ==> mem.ram[h] == old(mem.ram[h])
      ensures ty != T_OUT ==> disk[..] == old(disk[..])
      ensures forall x :: 0 <= x < disk.Length && !(sec * SECTOR <= x < sec * SECTOR + n) ==> disk[x] == old(disk[x])
      ensures status == S_OK ==>
                ChunkMoved(mem.pages, mem.ram[..], disk[..], old(bounce[..]), g, sec * SECTOR, n, ty, write)
      ensures write && ty == T_OUT ==> bounce[..] == old(bounce[..])
      ensures status == S_OK && write && ty == T_IN ==>
                forall i :: 0 <= i < n && sec * SECTOR + i < disk.Length ==> bounce[i] == disk[sec * SECTOR + i]
    {
      hide Has, At, Sound;
      forall i | 0 <= i < n && Has(mem.pages, g, i) ensures At(mem.pages, g, i) < mem.ram.Length {
        AtInside(mem.pages, mem.ram.Length, g, i);
      }
      if write {
        status := SectorRw(ty, sec, n);
        if status != S_OK {
          return;
        }
        var ok := mem.WriteBytes(g, bounce, n);
        if !ok {
          return S_IOERR;
        }
      } else {
        var ok := mem.ReadBytes(g, bounce, n);
        if !ok {
          return S_IOERR;
        }
        status := SectorRw(ty, sec, n);
      }
    }

    /** The chunk `done` bytes into a segment, in the segment's coordinates. */
    method ChunkAt(ty: nat, sector: nat, byteOff: nat, g: nat, done: nat, take: nat, write: bool)
      returns (status: nat)
      requires Valid() && 0 < take <= CHUNK && done % CHUNK == 0 && done + take <= U64
      modifies mem.ram, disk, bounce
      ensures status == S_OK || status == S_IOERR
      ensures status == S_OK <==>
              && Start(sector, byteOff) + done < disk.Length && (ty == T_IN || ty == T_OUT)
              && forall i :: done <= i < done + take ==> Has(mem.pages, g, i)
      ensures !write ==> mem.ram[..] == old(mem.ram[..])
      ensures forall h :: 0 <= h < mem.ram.Length && !Under(mem.pages, g, done + take, h) ==>
                mem.ram[h] == old(mem.ram[h])
      ensures ty != T_OUT ==> disk[..] == old(disk[..])
      ensures forall x :: 0 <= x < disk.Length
                          && !(Start(sector, byteOff) + done <= x < Start(sector, byteOff) + done + take) ==>
                disk[x] == old(disk[x])
      ensures forall stale {:trigger old(Primed(bounce[..], disk[..], stale, Start(sector, byteOff), done, ty, write))} ::
                status == S_OK && |stale| == CHUNK
                && old(Primed(bounce[..], disk[..], stale, Start(sector, byteOff), done, ty, write))
                && old(Moved(mem.pages, mem.ram[..], disk[..], stale, g, Start(sector, byteOff), done, ty, write)) ==>
                  && Moved(mem.pages, mem.ram[..], disk[..], stale, g, Start(sector, byteOff), done + take, ty, write)
                  && (take == CHUNK ==> Primed(bounce[..], disk[..], stale, Start(sector, byteOff), done + take, ty, write))
    {
      hide Start, Sound, ChunkMoved, Moved;
      var sec := Sat64(sector + (byteOff + done) / SECTOR);
      ChunkPlace(sector, byteOff, done, disk.Length);
      ghost var p, size, start := mem.pages, mem.ram.Length, Start(sector, byteOff);
      ghost var ram0, disk0, bounce0 := mem.ram[..], disk[..], bounce[..];
      Shifted(p, g, done);
      forall i | 0 <= i < done && Has(p, g, i)
        ensures At(p, g, i) < size && !Under(p, g + done, take, At(p, g, i))
      {
        EarlierNotUnder(p, size, g, done, take, i);
      }
      hide Has, At;
      status := MoveChunk(ty, sec, g + done, take, write);
      if status == S_OK {
        forall stale | |stale| == CHUNK && Primed(bounce0, disk0, stale, start, done, ty, write)
                       && Moved(p, ram0, disk0, stale, g, start, done, ty, write)
          ensures
            && Moved(p, mem.ram[..], disk[..], stale, g, start, done + take, ty, write)
            && (take == CHUNK ==> Primed(bounce[..], disk[..], stale, start, done + take, ty, write))
        {
          ChunkMoves(p, ram0, disk0, bounce0, mem.ram[..], disk[..], stale, g, start, done, take, ty, write);
        }
      }
    }

    /** A whole segment: one copy that starts at `Start(sector, byteOff)`. */
    method XferDataSeg(ty: nat, sector: nat, byteOff: nat, g: nat, len: nat, write: bool)
      returns (status: nat, wrote: nat)
      requires Valid() && len < U32
      modifies mem.ram, disk, bounce
      ensures status == S_OK || status == S_IOERR
      ensures status == S_OK <==>
              || len == 0
              || ((ty == T_IN || ty == T_OUT) && AllMapped(mem.pages, g, len)
                  && Reaches(disk.Length, Start(sector, byteOff), len))
      ensures wrote <= len && (status == S_OK ==> wrote == if ty == T_OUT && !write then len else 0)
      ensures !write ==> mem.ram[..] == old(mem.ram[..])
      ensures forall h :: 0 <= h < mem.ram.Length && !Under(mem.pages, g, len, h) ==> mem.ram[h] == old(mem.ram[h])
      ensures ty != T_OUT ==> disk[..] == old(disk[..])
      ensures forall x :: 0 <= x < disk.Length && !(Start(sector, byteOff) <= x < Start(sector, byteOff) + len) ==>
                disk[x] == old(disk[x])
      ensures status == S_OK ==>
                Moved(mem.pages, mem.ram[..], disk[..], old(bounce[..]), g, Start(sector, byteOff), len, ty, write)
    {
      hide Start, Sound, Reaches, At, Has, ByteMoved, Primed;
      ghost var p, start, stale := mem.pages, Start(sector, byteOff), bounce[..];
      var done := 0;
      wrote := 0;
      PrimedFirst(stale, disk[..], start, ty, write);
      while done < len
        invariant 0 <= done <= len && (done < len ==> done % CHUNK == 0)
        invariant wrote == if ty == T_OUT && !write then done else 0
        invariant AllMapped(p, g, done)
        invariant done > 0 ==> ty == T_IN || ty == T_OUT
        invariant done > 0 && done == len ==> Reaches(disk.Length, start, len)
        invariant !write ==> mem.ram[..] == old(mem.ram[..])
        invariant forall h :: 0 <= h < mem.ram.Length && !Under(p, g, len, h) ==> mem.ram[h] == old(mem.ram[h])
        invariant ty != T_OUT ==> disk[..] == old(disk[..])
        invariant forall x :: 0 <= x < disk.Length && !(start <= x < start + len) ==> disk[x] == old(disk[x])
        invariant Moved(p, mem.ram[..], disk[..], stale, g, start, done, ty, write)
        invariant done < len ==> Primed(bounce[..], disk[..], stale, start, done, ty, write)
      {
        var take := Min(len - done, CHUNK);
        if start + done < disk.Length {
          if done + take == len {
            ChunkOnDisk(disk.Length, start, len, done);
          }
        } else {
          ChunkReaches(disk.Length, start, len, done);
        }
        status := ChunkAt(ty, sector, byteOff, g, done, take, write);
        if status != S_OK {
          return;
        }
        if ty == T_OUT && !write {
          wrote := wrote + take;
        }
        done := done + take;
      }
      return S_OK, wrote;
    }
  }

  lemma PrimedFirst(bounce: seq<byte>, disk: seq<byte>, start: nat, ty: nat, write: bool)
    requires |bounce| == CHUNK
    ensures Primed(bounce, disk, bounce, start, 0, ty, write)
  {}

  /** A read that runs past the end of the disk in its last chunk is answered
      with success. Of 1024 bytes from a 512-byte disk the second half is what
      an earlier request left in the bounce buffer. */
  method ReadPastEnd(x: Transfer, g: nat) returns (status: nat, wrote: nat)
    requires x.Valid() && x.disk.Length == 512 && AllMapped(x.mem.pages, g, 1024)
    modifies x.mem.ram, x.disk, x.bounce
    ensures status == S_OK
    ensures forall i {:trigger At(x.mem.pages, g, i)} :: 0 <= i < 1024 ==>
              At(x.mem.pages, g, i) < x.mem.ram.Length
              && x.mem.ram[At(x.mem.pages, g, i)] == if i < 512 then x.disk[i] else old(x.bounce[i])
  {
    hide Has, At, Sound;
    forall i | 0 <= i < 1024 ensures At(x.mem.pages, g, i) < x.mem.ram.Length {
      AtInside(x.mem.pages, x.mem.ram.Length, g, i);
    }
    ghost var stale := x.bounce[..];
    status, wrote := x.XferDataSeg(T_IN, 0, 0, g, 1024, true);
    forall i | 0 <= i < 1024
      ensures x.mem.ram[At(x.mem.pages, g, i)] == if i < 512 then x.disk[i] else stale[i]
    {
      assert ByteMoved(x.mem.pages, x.mem.ram[..], x.disk[..], stale, g, 0, i, T_IN, true);
    }
  }

  /** A device-writable segment in a write is answered with success too. Disk
      and guest both get what an earlier request left in the bounce buffer. */
  method WriteFromDevice(x: Transfer, g: nat) returns (status: nat, wrote: nat)
    requires x.Valid() && x.disk.Length == 512 && AllMapped(x.mem.pages, g, 512)
    modifies x.mem.ram, x.disk, x.bounce
    ensures status == S_OK && x.disk[..] == old(x.bounce[..512])
    ensures forall i {:trigger At(x.mem.pages, g, i)} :: 0 <= i < 512 ==>
              At(x.mem.pages, g, i) < x.mem.ram.Length && x.mem.ram[At(x.mem.pages, g, i)] == old(x.bounce[i])
  {
    hide Has, At, Sound;
    forall i | 0 <= i < 512 ensures At(x.mem.pages, g, i) < x.mem.ram.Length {
      AtInside(x.mem.pages, x.mem.ram.Length, g, i);
    }
    ghost var stale := x.bounce[..];
    status, wrote := x.XferDataSeg(T_OUT, 0, 0, g, 512, true);
    forall i | 0 <= i < 512
      ensures x.mem.ram[At(x.mem.pages, g, i)] == stale[i] && x.disk[i] == stale[i]
    {
      assert ByteMoved(x.mem.pages, x.mem.ram[..], x.disk[..], stale, g, 0, i, T_OUT, true);
    }
  }

  /** A write stores the bytes the guest had exactly when the segment is not
      device-writable, or the bounce buffer happened to hold the same. */
  lemma StoresGuestIff(p: Pages, ram: seq<byte>, ram1: seq<byte>, disk1: seq<byte>, stale: seq<byte>, g: nat, start: nat,
                       n: nat, write: bool)
    requires |stale| == CHUNK && |ram1| == |ram| && start + n <= |disk1| && AllMapped(p, g, n)
    requires Moved(p, ram1, disk1, stale, g, start, n, T_OUT, write) && (!write ==> ram1 == ram)
    ensures (forall i :: 0 <= i < n ==> At(p, g, i) < |ram| && disk1[start + i] == ram[At(p, g, i)]) <==>
            !write || (forall i :: 0 <= i < n ==> At(p, g, i) < |ram| && stale[i % CHUNK] == ram[At(p, g, i)])
  {
    hide Has, At;
    forall i | 0 <= i < n
      ensures At(p, g, i) < |ram| && disk1[start + i] == if write then stale[i % CHUNK] else ram[At(p, g, i)]
    {
      assert ByteMoved(p, ram1, disk1, stale, g, start, i, T_OUT, write);
    }
  }
}
