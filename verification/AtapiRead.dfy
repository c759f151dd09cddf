/** The guest CD drive's PACKET protocol: one READ command served over as many
    data-request bursts as it takes. */
module AtapiRead {
  import opened Common
  import opened Bytes
  import Bits

  const SECTOR: nat := 2048
  const BURST: nat := 31
  const XFER_CAP: nat := 63488
  const LBA_MAX: nat := 0xFFFF_FFFF

  const DATA_READY: nat := 0x58
  const READY: nat := 0x50
  const FAILED: nat := 0x41

  predicate Whole(n: nat) {
    n % 2048 == 0
  }

  lemma Regroup(a: seq<byte>, b: seq<byte>, c: seq<byte>)
    ensures a + b + c == a + (b + c)
  {}

  // ---- which sectors one command serves ----

  /** Sectors one burst may carry under the guest's byte limit. */
  function Sectors(limit: nat): (k: nat)
    ensures 1 <= k <= BURST
  {
    var bytes := if limit == 0 || limit == 0xFFFF then XFER_CAP else limit;
    if bytes / SECTOR < 1 then 1 else Min(bytes / SECTOR, BURST)
  }

  /** A burst keeps within the guest's limit exactly when the limit admits a
      whole sector. */
  lemma WithinLimitIff(limit: nat)
    requires limit < U16
    ensures Sectors(limit) * SECTOR <= limit <==> limit >= SECTOR
  {
    assert limit / SECTOR * SECTOR <= limit;
  }

  /** A guest that asks for 512 bytes at a time is given 2048. */
  lemma SmallLimitExceeded()
    ensures Sectors(512) * SECTOR == 2048 > 512
  {}

  /** Sector numbers `lba`, `lba + 1`, … . */
  function Run(lba: nat, n: nat): (r: seq<nat>)
    ensures |r| == n && forall i :: 0 <= i < n ==> r[i] == lba + i
  {
    seq(n, i requires 0 <= i => lba + i)
  }

  /** The sectors served burst by burst, the running address stopping at its
      32-bit maximum. */
  function Plan(lba: nat, left: nat, k: nat): (p: seq<nat>)
    requires k > 0
    ensures |p| == left
    decreases left
  {
    if left == 0 then []
    else
      var n := Min(left, k);
      Run(lba, n) + Plan(Min(lba + n, LBA_MAX), left - n, k)
  }

  /** Address of the last burst's first sector. */
  function LastBurst(lba: nat, left: nat, k: nat): nat
    requires k > 0
    decreases left
  {
    if left <= k then lba else LastBurst(lba + k, left - k, k)
  }

  lemma {:induction false} LastBurstAt(lba: nat, left: nat, k: nat)
    requires k > 0
    ensures lba <= LastBurst(lba, left, k) && LastBurst(lba, left, k) <= lba + left
    decreases left
  {
    if left > k {
      LastBurstAt(lba + k, left - k, k);
    }
  }

  /** The plan is the run of sectors asked for exactly when every burst
      starts at an address that fits 32 bits. */
  lemma {:induction false} PlanIff(lba: nat, left: nat, k: nat)
    requires k > 0 && lba <= LBA_MAX
    ensures Plan(lba, left, k) == Run(lba, left) <==> LastBurst(lba, left, k) <= LBA_MAX
    decreases left
  {
    hide Run;
    if left <= k {
      assert Plan(lba, left, k) == Run(lba, left);
    } else {
      RunSplit(lba, left, k, Plan(Min(lba + k, LBA_MAX), left - k, k));
      if lba + k <= LBA_MAX {
        PlanIff(lba + k, left - k, k);
      } else {
        LastBurstAt(lba + k, left - k, k);
        PlanHead(LBA_MAX, left - k, k);
        assert Run(lba + k, left - k)[0] == lba + k;
      }
    }
  }

  lemma PlanHead(lba: nat, left: nat, k: nat)
    requires k > 0 && left > 0
    ensures Plan(lba, left, k)[0] == lba
  {}

  lemma RunSplit(lba: nat, left: nat, k: nat, rest: seq<nat>)
    requires k <= left
    ensures Run(lba, k) + rest == Run(lba, left) <==> rest == Run(lba + k, left - k)
  {
    hide Run;
    assert Run(lba, left) == Run(lba, k) + Run(lba + k, left - k);
    assert (Run(lba, k) + rest)[k..] == rest && Run(lba, left)[k..] == Run(lba + k, left - k);
  }

  function Sector(medium: seq<byte>, l: nat): seq<byte> {
    if (l + 1) * SECTOR <= |medium| then medium[l * SECTOR..(l + 1) * SECTOR] else []
  }

  function Fetch(medium: seq<byte>, plan: seq<nat>): seq<byte> {
    if plan == [] then [] else Sector(medium, plan[0]) + Fetch(medium, plan[1..])
  }

  lemma {:induction false} FetchJoin(medium: seq<byte>, a: seq<nat>, b: seq<nat>)
    ensures Fetch(medium, a + b) == Fetch(medium, a) + Fetch(medium, b)
  {
    if a == [] {
      assert a + b == b;
    } else {
      assert (a + b)[1..] == a[1..] + b;
      FetchJoin(medium, a[1..], b);
    }
  }

  lemma FetchHead(medium: seq<byte>, plan: seq<nat>)
    requires plan != []
    ensures Fetch(medium, plan) == Sector(medium, plan[0]) + Fetch(medium, plan[1..])
  {}

  lemma FetchNone(medium: seq<byte>)
    ensures Fetch(medium, []) == []
  {}

  lemma {:induction false} FetchRun(medium: seq<byte>, lba: nat, n: nat)
    requires (lba + n) * SECTOR <= |medium|
    ensures Fetch(medium, Run(lba, n)) == medium[lba * SECTOR..(lba + n) * SECTOR]
    decreases n
  {
    hide Run, Fetch;
    if n == 0 {
      assert Run(lba, 0) == [];
      FetchNone(medium);
    } else {
      FetchHead(medium, Run(lba, n));
      assert Run(lba, n)[1..] == Run(lba + 1, n - 1);
      FetchRun(medium, lba + 1, n - 1);
      var a, b, c := lba * SECTOR, (lba + 1) * SECTOR, (lba + n) * SECTOR;
      assert medium[a..c] == medium[a..b] + medium[b..c];
    }
  }

  /** One burst and what is left after it. */
  lemma PlanStep(medium: seq<byte>, lba: nat, left: nat, k: nat)
    requires k > 0 && left > 0 && (lba + left) * SECTOR <= |medium|
    ensures var n := Min(left, k);
            Fetch(medium, Plan(lba, left, k)) ==
              medium[lba * SECTOR..(lba + n) * SECTOR] + Fetch(medium, Plan(Min(lba + n, LBA_MAX), left - n, k))
  {
    hide Run, Fetch;
    var n := Min(left, k);
    FetchJoin(medium, Run(lba, n), Plan(Min(lba + n, LBA_MAX), left - n, k));
    FetchRun(medium, lba, n);
  }

  lemma EmptyPlan(medium: seq<byte>, k: nat)
    requires k > 0
    ensures forall lba :: Fetch(medium, Plan(lba, 0, k)) == []
  {}

  /** The bytes a READ hands over are the requested ones, in order. */
  lemma ReadIsFlat(medium: seq<byte>, lba: nat, count: nat, k: nat)
    requires k > 0 && lba <= LBA_MAX && (lba + count) * SECTOR <= |medium|
    requires LastBurst(lba, count, k) <= LBA_MAX
    ensures Fetch(medium, Plan(lba, count, k)) == medium[lba * SECTOR..(lba + count) * SECTOR]
  {
    PlanIff(lba, count, k);
    FetchRun(medium, lba, count);
  }

  // ---- the command block ----

  const READ10: byte := 0x28
  const READ12: byte := 0xA8

  function BigEndian(s: seq<byte>): (v: nat) {
    if s == [] then 0 else BigEndian(s[..|s| - 1]) * 256 + s[|s| - 1]
  }

  function NoData(): set<byte> {
    {0x00, 0x1B, 0x1E}
  }

  /** Commands answered from a fixed table. */
  function Informing(): set<byte> {
    {0x03, 0x12, 0x25, 0x43, 0x46, 0x4A, 0x1A, 0x5A}
  }

  function BigEndian4(v: nat): (s: seq<byte>)
    ensures |s| == 4
  {
    [v / 256 / 256 / 256 % 256, v / 256 / 256 % 256, v / 256 % 256, v % 256]
  }

  lemma BigEndianOf(s: seq<byte>)
    requires |s| == 4
    ensures BigEndian(s) == ((s[0] as int * 256 + s[1] as int) * 256 + s[2] as int) * 256 + s[3] as int
  {
    var a: int, b: int, c: int := s[0], s[1], s[2];
    assert s[..3][..2] == s[..2] && s[..2][..1] == s[..1] && s[..1][..0] == [];
    assert BigEndian(s[..1]) == a;
    assert BigEndian(s[..2]) == a * 256 + b;
    assert BigEndian(s[..3]) == (a * 256 + b) * 256 + c;
  }

  lemma BigEndianBack(v: nat)
    requires v <= LBA_MAX
    ensures BigEndian(BigEndian4(v)) == v
  {
    hide BigEndian;
    BigEndianOf(BigEndian4(v));
    var q1 := v / 256;
    var q2 := q1 / 256;
    var q3 := q2 / 256;
    assert v == 256 * q1 + v % 256 && q1 == 256 * q2 + q1 % 256 && q2 == 256 * q3 + q2 % 256;
  }

  function Clamp(n: nat, lo: nat, hi: nat): (m: nat)
    requires lo <= hi
    ensures lo <= m <= hi
  {
    if n < lo then lo else Min(n, hi)
  }

  /** The last sector number, as 32 bits hold it. */
  function LastSector(size: nat): nat {
    if size >= SECTOR then (size / SECTOR - 1) % U32 else 0
  }

  /** The leading bytes of an informing command's answer; the rest is zero. */
  function Table(op: byte, size: nat, key: byte, asc: byte): (s: seq<byte>)
    ensures |s| <= 36
  {
    if op == 0x03 then [0x70, 0, key, 0, 0, 0, 0, 10, 0, 0, 0, 0, asc]
    else if op == 0x12 then
      [5, 0x80, 5, 2, 31, 0, 0, 0, 0x52, 0x41, 0x59, 0x4E, 0x55, 0x2D, 0x56, 0x20,
       0x47, 0x55, 0x45, 0x53, 0x54, 0x20, 0x43, 0x44, 0x20, 0x20, 0x20, 0x20, 0x20, 0x20, 0x20, 0x20]
    else if op == 0x25 then BigEndian4(LastSector(size)) + BigEndian4(SECTOR)
    else if op == 0x43 then
      [0, 18, 1, 1, 1, 0x14, 1, 0, 0, 0, 0, 0, 1, 0x14, 0xAA, 0] + BigEndian4(if size >= SECTOR then size / SECTOR % U32 else 1)
    else if op == 0x46 then [0, 0, 0, 8, 0, 0, 0, 8]
    else if op == 0x4A then [0, 6, 4, 0, 4]
    else if op == 0x1A then [11, 0, 0, 8, 0, 0, 0, 0, 0, 8]
    else [0, 18, 0, 0, 0, 0, 0, 8, 0, 0, 0, 0, 0, 8]
  }

  /** How many bytes of it the command asks for, within its bounds. */
  function Wanted(cdb: seq<byte>): (n: nat)
    requires |cdb| == 12
    ensures 4 <= n <= 36
  {
    var short, long: nat := cdb[4], BigEndian(cdb[7..9]);
    if cdb[0] == 0x03 then Clamp(short, 8, 18)
    else if cdb[0] == 0x12 then Clamp(short, 5, 36)
    else if cdb[0] == 0x25 then 8
    else if cdb[0] == 0x43 then Clamp(long, 4, 20)
    else if cdb[0] == 0x46 then Clamp(long, 8, 16)
    else if cdb[0] == 0x4A then Clamp(long, 4, 8)
    else if cdb[0] == 0x1A then Clamp(short, 4, 12)
    else Clamp(long, 8, 20)
  }

  function Answer(cdb: seq<byte>, size: nat, key: byte, asc: byte): (s: seq<byte>)
    requires |cdb| == 12
    ensures |s| == Wanted(cdb)
  {
    Padded(Table(cdb[0], size, key, asc), Wanted(cdb))
  }

  /** READ CAPACITY tells the last sector that can be read: one there is
      accepted, one after it is not, on any medium of whole sectors that 32
      bits can number. */
  lemma CapacityIsLast(cdb: seq<byte>, size: nat, key: byte, asc: byte)
    requires |cdb| == 12 && cdb[0] == 0x25 && SECTOR <= size <= U32 * SECTOR && size % SECTOR == 0
    ensures var last := BigEndian(Answer(cdb, size, key, asc)[..4]);
            (last + 1) * SECTOR == size
  {
    var a, b := BigEndian4(LastSector(size)), BigEndian4(SECTOR);
    assert Answer(cdb, size, key, asc)[..4] == a;
    BigEndianBack(LastSector(size));
  }

  /** How much of `n` bytes a burst under `limit` carries. */
  function Opened(n: nat, limit: nat): (k: nat)
    requires 2 <= n
    ensures 2 <= k <= n
  {
    if limit == 0 || limit == 0xFFFF then n else if Min(n, limit) < 2 then 2 else Min(n, limit)
  }

  /** Start and length of the read a command block asks for. */
  function Request(cdb: seq<byte>): (r: (nat, nat))
    requires |cdb| == 12
  {
    (BigEndian(cdb[2..6]), if cdb[0] == READ10 then BigEndian(cdb[7..9]) else BigEndian(cdb[6..10]))
  }

  lemma BigEndianBound(s: seq<byte>)
    requires |s| == 4
    ensures BigEndian(s) <= LBA_MAX
  {
    hide BigEndian;
    BigEndianOf(s);
  }

  datatype Xfer = Idle | Identify | PacketCdb | PacketData

  class CdMedia {
    const medium: seq<byte>
    const data: array<byte>
    var xfer: Xfer
    var xferOff: nat
    var xferEnd: nat
    var cdb: seq<byte>
    var cdbGot: nat
    var pktLba: nat
    var pktLeft: nat
    var byteLimit: nat
    var status: nat
    var err: nat
    var count: nat
    var lbaMid: byte
    var lbaHigh: byte
    var senseKey: byte
    var senseAsc: byte

    ghost predicate Shape()
      reads this
    {
      && data.Length == XFER_CAP
      && |cdb| == 12 && cdbGot <= 12
      && byteLimit < U16 && pktLba <= LBA_MAX
    }

    /** Between port accesses: an open burst has bytes left, and the rest of
        its command lies on the medium. */
    ghost predicate Valid()
      reads this
    {
      && Shape()
      && (xfer == PacketCdb ==> cdbGot < 12)
      && (xfer == PacketData || xfer == Identify ==> xferOff < xferEnd <= XFER_CAP)
      && (xfer == PacketData ==> (pktLba + pktLeft) * SECTOR <= |medium| && status == DATA_READY)
    }

    /** Everything the data port has still to hand over for this command. */
    ghost function Remaining(): seq<byte>
      requires Valid()
      reads this, data
    {
      if xfer == PacketData then data[xferOff..xferEnd] + Fetch(medium, Plan(pktLba, pktLeft, Sectors(byteLimit)))
      else if xfer == Identify then data[xferOff..xferEnd]
      else []
    }

    /** Ready for the next command, interrupt reason `complete`. */
    ghost predicate Complete()
      reads this
    {
      xfer == Idle && status == READY && count == 3 && err == 0 && pktLeft == 0
    }

    /** The command was refused with this sense. */
    ghost predicate Refused(sense: nat, asc: nat)
      reads this
    {
      && xfer == Idle && status == FAILED && count == 3 && pktLeft == 0
      && err == sense * 16 && senseKey == sense && senseAsc == asc
    }

    constructor (medium: seq<byte>)
      ensures Valid() && fresh(data) && this.medium == medium
      ensures Remaining() == [] && status == READY
    {
      this.medium := medium;
      data := new byte[XFER_CAP](_ => 0);
      xfer, xferOff, xferEnd := Idle, 0, 0;
      cdb, cdbGot := seq(12, _ => 0), 0;
      pktLba, pktLeft, byteLimit := 0, 0, 0;
      status, err, count := READY, 1, 1;
      lbaMid, lbaHigh := 0x14, 0xEB;
      senseKey, senseAsc := 0, 0;
    }

    method PacketOk()
      requires Shape()
      modifies this
      ensures Valid() && Complete() && Remaining() == []
      ensures byteLimit == old(byteLimit) && cdb == old(cdb)
    {
      xfer, pktLba, pktLeft := Idle, 0, 0;
      err, count, status := 0, 3, READY;
    }

    method PacketError(sense: byte, asc: byte)
      requires Shape()
      modifies this
      ensures Valid() && Refused(sense, asc) && Remaining() == [] && byteLimit == old(byteLimit)
    {
      senseKey, senseAsc := sense, asc;
      xfer, pktLba, pktLeft := Idle, 0, 0;
      err, count, status := sense * 16, 3, FAILED;
    }

    /** Opens a burst of `n` bytes, or as many as the limit allows. The
        cylinder registers say how many the burst really has. */
    method BeginPacketData(n: nat)
      requires Shape() && 2 <= n <= XFER_CAP
      requires (pktLba + pktLeft) * SECTOR <= |medium|
      modifies this`xfer, this`xferOff, this`xferEnd, this`count, this`lbaMid, this`lbaHigh, this`err, this`status
      ensures Valid() && xfer == PacketData && xferOff == 0 && status == DATA_READY && count == 2
      ensures lbaMid + 256 * lbaHigh == xferEnd == Opened(n, byteLimit)
    {
      var limit := byteLimit;
      if limit == 0 || limit == 0xFFFF {
        limit := n;
      }
      var size := Min(n, limit);
      if size < 2 {
        size := 2;
      }
      xfer, xferOff, xferEnd := PacketData, 0, size;
      count := 2;
      lbaMid, lbaHigh := size % 256, size / 256;
      err, status := 0, DATA_READY;
    }

    method CopyBurst(start: nat, bytes: nat)
      requires bytes <= data.Length && start + bytes <= |medium|
      modifies data
      ensures data[..bytes] == medium[start..start + bytes]
    {
      forall i | 0 <= i < bytes {
        data[i] := medium[start + i];
      }
    }

    /** Loads the next burst of the READ in progress. What is owed to the
        guest does not change: it only moves into the buffer. The range test
        made when the command was accepted covers every burst. */
    method FillReadDrq()
      requires Shape() && (pktLba + pktLeft) * SECTOR <= |medium|
      modifies this, data
      ensures Valid() && byteLimit == old(byteLimit)
      ensures old(pktLeft) == 0 ==> Complete()
      ensures old(pktLeft) > 0 ==>
                && xfer == PacketData && xferOff == 0 && status == DATA_READY && count == 2
                && xferEnd == Min(old(pktLeft), Sectors(byteLimit)) * SECTOR
                && lbaMid + 256 * lbaHigh == xferEnd
                && pktLeft == old(pktLeft) - Min(old(pktLeft), Sectors(byteLimit))
      ensures Remaining() == old(Fetch(medium, Plan(pktLba, pktLeft, Sectors(byteLimit))))
    {
      hide Sectors, Plan, Fetch, Run;
      if pktLeft == 0 {
        PacketOk();
        EmptyPlan(medium, Sectors(byteLimit));
        return;
      }
      var n := Min(pktLeft, Sectors(byteLimit));
      var start, bytes := pktLba * SECTOR, n * SECTOR;
      if start + bytes > |medium| {
        assert false;
      }
      PlanStep(medium, pktLba, pktLeft, Sectors(byteLimit));
      CopyBurst(start, bytes);
      pktLba := Min(pktLba + n, LBA_MAX);
      pktLeft := pktLeft - n;
      var was := byteLimit;
      byteLimit := 0;
      BeginPacketData(bytes);
      byteLimit := was;
    }

    /** Accepts a read of `n` sectors at `lba`, or refuses it whole. */
    method LoadSectors(lba: nat, n: nat)
      requires Shape() && lba <= LBA_MAX
      modifies this, data
      ensures Valid() && byteLimit == old(byteLimit)
      ensures n == 0 ==> Complete() && Remaining() == []
      ensures n > 0 && (lba + n) * SECTOR > |medium| ==> Refused(5, 0x21) && Remaining() == []
      ensures n > 0 && (lba + n) * SECTOR <= |medium| ==>
                && xfer == PacketData && xferOff == 0 && status == DATA_READY && Whole(xferEnd)
                && Remaining() == Fetch(medium, Plan(lba, n, Sectors(byteLimit)))
    {
      hide Sectors, Plan, Fetch, Run;
      if n == 0 {
        PacketOk();
        return;
      }
      if lba * SECTOR + n * SECTOR > |medium| {
        PacketError(5, 0x21);
        return;
      }
      pktLba, pktLeft := lba, n;
      FillReadDrq();
    }

    /** The PACKET command: forget the last one, note the guest's byte limit
        from the cylinder registers, and wait for a command block. */
    method StartPacket()
      requires Shape()
      modifies this
      ensures Valid() && xfer == PacketCdb && cdbGot == 0 && count == 1 && status == DATA_READY
      ensures byteLimit == old(lbaMid) + 256 * old(lbaHigh) && pktLba == 0 && pktLeft == 0
      ensures senseKey == old(senseKey) && senseAsc == old(senseAsc)
      ensures Remaining() == []
    {
      xfer, cdbGot, cdb := PacketCdb, 0, seq(12, _ => 0);
      pktLba, pktLeft := 0, 0;
      byteLimit := lbaMid + 256 * lbaHigh;
      err, count, status := 0, 1, DATA_READY;
    }

    /** The state a complete command block leaves. */
    ghost predicate Ran(block: seq<byte>, limit: nat, key: byte, asc: byte)
      requires |block| == 12
      reads this, data
    {
      && Valid() && byteLimit == limit
      && (block[0] == READ10 || block[0] == READ12 ==>
            var (lba, n) := Request(block);
            if n > 0 && (lba + n) * SECTOR > |medium| then Refused(5, 0x21) && Remaining() == []
            else
              && Remaining() == Fetch(medium, Plan(lba, n, Sectors(byteLimit)))
              && (if n == 0 then Complete() else xfer == PacketData && xferOff == 0 && Whole(xferEnd)))
      && (block[0] in NoData() ==> Complete())
      && (block[0] in Informing() ==>
            xfer == PacketData && Remaining() == Answer(block, |medium|, key, asc)[..Opened(Wanted(block), limit)])
      && (block[0] !in NoData() + Informing() + {READ10, READ12} ==> Refused(5, 0x20))
    }

    /** Runs the command block. */
    method FinishPacket()
      requires Shape() && pktLba == 0 && pktLeft == 0
      modifies this, data
      ensures Valid() && Ran(old(cdb), old(byteLimit), old(senseKey), old(senseAsc))
    {
      hide Sectors, Plan, Fetch, Run, BigEndian, Table, Wanted, Answer, Opened;
      var op := cdb[0];
      EmptyPlan(medium, Sectors(byteLimit));
      if op in NoData() {
        PacketOk();
      } else if op in Informing() {
        var answer := Answer(cdb, |medium|, senseKey, senseAsc);
        forall i | 0 <= i < data.Length {
          data[i] := if i < |answer| then answer[i] else 0;
        }
        BeginPacketData(|answer|);
        assert data[..xferEnd] == answer[..xferEnd];
      } else if op == READ10 || op == READ12 {
        BigEndianBound(cdb[2..6]);
        LoadSectors(Request(cdb).0, Request(cdb).1);
      } else {
        PacketError(5, 0x20);
      }
    }

    /** A write to the data port, its bytes low first, fills the command
        block; the twelfth byte runs it. */
    method WriteData(operand: seq<byte>)
      requires Valid()
      requires xfer == PacketCdb ==> pktLba == 0 && pktLeft == 0
      modifies this, data
      ensures Valid()
      ensures old(xfer) != PacketCdb ==> unchanged(this) && unchanged(data)
      ensures old(xfer) == PacketCdb && old(cdbGot) + |operand| < 12 ==>
                && xfer == PacketCdb && cdbGot == old(cdbGot) + |operand| && pktLba == 0 && pktLeft == 0
                && byteLimit == old(byteLimit) && senseKey == old(senseKey) && senseAsc == old(senseAsc)
                && cdb[..cdbGot] == old(cdb[..cdbGot]) + operand
      ensures old(xfer) == PacketCdb && old(cdbGot) + |operand| >= 12 ==>
                Ran(old(cdb[..cdbGot]) + operand[..12 - old(cdbGot)], old(byteLimit), old(senseKey), old(senseAsc))
    {
      hide Sectors, Plan, Fetch, Run, BigEndian, Ran;
      if xfer != PacketCdb {
        return;
      }
      var i := 0;
      while i < |operand|
        invariant 0 <= i <= |operand|
        invariant Shape() && xfer == PacketCdb && byteLimit == old(byteLimit) && pktLba == 0 && pktLeft == 0
        invariant cdbGot == Min(12, old(cdbGot) + i)
        invariant cdb[..cdbGot] == old(cdb[..cdbGot]) + operand[..cdbGot - old(cdbGot)]
        modifies this`cdb, this`cdbGot
      {
        if cdbGot < 12 {
          ghost var was := cdb[..cdbGot];
          cdb := cdb[cdbGot := operand[i]];
          cdbGot := cdbGot + 1;
          assert cdb[..cdbGot] == was + [operand[i]];
          assert operand[..i + 1] == operand[..i] + [operand[i]];
        }
        i := i + 1;
      }
      if cdbGot >= 12 {
        assert cdb == cdb[..12];
        FinishPacket();
      }
    }

    /** A read of the data port, its bytes low first: the next bytes owed, in
        order, padded with zero where a burst ends inside the access. The
        last one completes the command. */
    method ReadData(size: nat) returns (v: seq<byte>)
      requires Valid() && size > 0
      modifies this, data
      ensures Valid() && |v| == size && byteLimit == old(byteLimit)
      ensures old(xfer) != PacketData && old(xfer) != Identify ==> unchanged(this) && unchanged(data) && v == Zeros(size)
      ensures old(xfer) == PacketData || old(xfer) == Identify ==>
                var k := Min(size, old(xferEnd) - old(xferOff));
                && old(Remaining()) == v[..k] + Remaining()
                && v[k..] == Zeros(size - k)
                && (Remaining() != [] ==> xfer == old(xfer))
                && (Remaining() == [] ==> xfer == Idle && status == READY)
                && (Remaining() == [] && old(xfer) == PacketData ==> Complete())
                && (Remaining() != [] ==>
                      (xferOff == old(xferOff) + k && xferEnd == old(xferEnd)) || (xferOff == 0 && Whole(xferEnd)))
    {
      hide Sectors, Plan, Fetch, Run, Zeros, Whole;
      if xfer != PacketData && xfer != Identify {
        return Zeros(size);
      }
      ghost var later := Later();
      v := Drain(size);
      Regroup(v[..Min(size, xferEnd - old(xferOff))], data[xferOff..xferEnd], later);
      if xferOff >= xferEnd {
        EndBurst();
      }
    }

    /** What is owed beyond the burst in the buffer. */
    ghost function Later(): seq<byte>
      requires Shape()
      reads this
    {
      if xfer == PacketData then Fetch(medium, Plan(pktLba, pktLeft, Sectors(byteLimit))) else []
    }

    method EndBurst()
      requires Shape() && xferOff == xferEnd && (xfer == PacketData || xfer == Identify)
      requires xfer == PacketData ==> (pktLba + pktLeft) * SECTOR <= |medium|
      modifies this, data
      ensures Valid() && byteLimit == old(byteLimit)
      ensures Remaining() == old(Later())
      ensures Remaining() != [] ==> xfer == old(xfer) && xferOff == 0 && Whole(xferEnd)
      ensures Remaining() == [] ==> xfer == Idle && status == READY
      ensures Remaining() == [] && old(xfer) == PacketData ==> Complete()
    {
      hide Sectors, Plan, Fetch, Run;
      if xfer == PacketData {
        EmptyPlan(medium, Sectors(byteLimit));
        if pktLeft > 0 {
          FillReadDrq();
          assert Remaining()[0] == data[0];
        } else {
          PacketOk();
        }
      } else {
        xfer, status := Idle, READY;
      }
    }

    /** Up to `size` bytes of the open burst, then zeros. */
    method Drain(size: nat) returns (v: seq<byte>)
      requires Shape() && xferOff < xferEnd <= XFER_CAP
      modifies this`xferOff
      ensures var k := Min(size, xferEnd - old(xferOff));
              && xferOff == old(xferOff) + k
              && |v| == size && v[k..] == Zeros(size - k)
              && data[old(xferOff)..xferEnd] == v[..k] + data[xferOff..xferEnd]
    {
      hide Zeros;
      ghost var burst := data[xferOff..xferEnd];
      v := [];
      var i := 0;
      while i < size
        invariant 0 <= i <= size && v == Padded(burst, i)
        invariant xferOff == old(xferOff) + Min(i, |burst|)
      {
        if xferOff < xferEnd {
          assert data[xferOff] == burst[i];
          v := v + [data[xferOff]];
          xferOff := xferOff + 1;
        } else {
          v := v + [0];
        }
        i := i + 1;
      }
      var k := Min(size, |burst|);
      assert data[xferOff..xferEnd] == burst[k..];
      assert v[..k] == burst[..k] && burst == burst[..k] + burst[k..];
    }
  }

  /** The first `size` bytes of `s`, made up with zeros. */
  function Padded(s: seq<byte>, size: nat): (r: seq<byte>)
    ensures |r| == size
    ensures forall i :: 0 <= i < size ==> r[i] == if i < |s| then s[i] else 0
  {
    s[..Min(size, |s|)] + Zeros(size - Min(size, |s|))
  }

  /** A guest driver's READ: PACKET under any byte limit, the command block,
      then the data port at one width until the drive stops asking. It gets
      the sectors of the plan, every byte once and in order. */
  method Read(d: CdMedia, cdb: seq<byte>, mid: byte, high: byte, width: nat) returns (got: seq<byte>, ok: bool)
    requires d.Valid() && (width == 1 || width == 2 || width == 4)
    requires |cdb| == 12 && (cdb[0] == READ10 || cdb[0] == READ12)
    modifies d, d.data
    ensures d.Valid() && d.xfer == Idle && d.count == 3
    ensures var (lba, n) := Request(cdb);
            var k := Sectors(mid + 256 * high);
            && (ok <==> n == 0 || (lba + n) * SECTOR <= |d.medium|)
            && (ok ==> got == Fetch(d.medium, Plan(lba, n, k)) && d.status == READY)
            && (ok && n > 0 && LastBurst(lba, n, k) <= LBA_MAX ==> got == d.medium[lba * SECTOR..(lba + n) * SECTOR])
            && (!ok ==> got == [] && d.Refused(5, 0x21))
  {
    hide Sectors, Plan, Fetch, Run, BigEndian, LastBurst;
    d.lbaMid, d.lbaHigh := mid, high;
    d.StartPacket();
    SendBlock(d, cdb, width);
    ok := d.status != FAILED;
    got := ReadOut(d, width);
    var (lba, n) := Request(cdb);
    var k := Sectors(mid + 256 * high);
    if n > 0 && (lba + n) * SECTOR <= |d.medium| && LastBurst(lba, n, k) <= LBA_MAX {
      BigEndianBound(cdb[2..6]);
      ReadIsFlat(d.medium, lba, n, k);
    }
  }

  method SendBlock(d: CdMedia, cdb: seq<byte>, width: nat)
    requires d.Valid() && (width == 1 || width == 2 || width == 4) && |cdb| == 12
    requires d.xfer == PacketCdb && d.cdbGot == 0 && d.pktLba == 0 && d.pktLeft == 0
    modifies d, d.data
    ensures d.Ran(cdb, old(d.byteLimit), old(d.senseKey), old(d.senseAsc))
  {
    hide Sectors, Plan, Fetch, Run, BigEndian, CdMedia.Ran;
    var i := 0;
    while i + width < 12
      invariant 0 <= i < 12 && i % width == 0
      invariant d.Valid() && d.xfer == PacketCdb && d.cdbGot == i && d.pktLba == 0 && d.pktLeft == 0
      invariant d.byteLimit == old(d.byteLimit) && d.cdb[..i] == cdb[..i]
      invariant d.senseKey == old(d.senseKey) && d.senseAsc == old(d.senseAsc)
    {
      d.WriteData(cdb[i..i + width]);
      i := i + width;
    }
    assert d.cdb[..i] + cdb[i..][..12 - i] == cdb;
    d.WriteData(cdb[i..]);
  }

  /** Past the last 32-bit sector the address sticks: of 32 sectors across it,
      the last, a burst of its own, is the last addressable sector again
      instead of the thirtieth after it. */
  lemma StuckPlan(medium: seq<byte>)
    requires (LBA_MAX + 31) * SECTOR <= |medium|
    ensures var r := Fetch(medium, Plan(LBA_MAX - 1, 32, BURST));
            && |r| == 32 * SECTOR && r[31 * SECTOR..] == Sector(medium, LBA_MAX)
            && (Sector(medium, LBA_MAX) != Sector(medium, LBA_MAX + 30) ==>
                  r != medium[(LBA_MAX - 1) * SECTOR..(LBA_MAX + 31) * SECTOR])
  {
    hide Fetch, Run;
    PlanStep(medium, LBA_MAX - 1, 32, BURST);
    PlanStep(medium, LBA_MAX, 1, BURST);
    EmptyPlan(medium, BURST);
    TailSector(medium, LBA_MAX - 1, 32);
  }

  lemma TailSector(medium: seq<byte>, lba: nat, n: nat)
    requires n > 0 && (lba + n) * SECTOR <= |medium|
    ensures medium[lba * SECTOR..(lba + n) * SECTOR][(n - 1) * SECTOR..] == Sector(medium, lba + n - 1)
  {}

  lemma NoLimit()
    ensures Sectors(0) == BURST
  {}

  /** The drive accepts that read on any medium that has the sectors, and owes
      the guest other bytes than it asked for. */
  method AddressSticks(d: CdMedia)
    requires d.Shape() && d.byteLimit == 0 && (LBA_MAX + 31) * SECTOR <= |d.medium|
    requires Sector(d.medium, LBA_MAX) != Sector(d.medium, LBA_MAX + 30)
    modifies d, d.data
    ensures d.Valid() && d.xfer == PacketData
    ensures d.Remaining() == Fetch(d.medium, Plan(LBA_MAX - 1, 32, BURST))
    ensures d.Remaining() != d.medium[(LBA_MAX - 1) * SECTOR..(LBA_MAX + 31) * SECTOR]
  {
    hide Fetch, Run, Plan, Sectors, Sector, Whole;
    NoLimit();
    StuckPlan(d.medium);
    d.LoadSectors(LBA_MAX - 1, 32);
  }

  predicate Even(n: int, width: nat) {
    if width == 1 then true else if width == 2 then n % 2 == 0 else n % 4 == 0
  }

  lemma WholeIsEven(q: nat, n: nat)
    requires n == 2048 * q
    ensures n % 2 == 0 && n % 4 == 0
  {
    Bits.DivUnique(n, 2, 1024 * q, 0);
    Bits.DivUnique(n, 4, 512 * q, 0);
  }

  lemma EvenParts(n: nat, width: nat)
    requires width == 1 || width == 2 || width == 4
    ensures Whole(n) ==> Even(n, width)
    ensures n > 0 && Even(n, width) ==> n >= width && Even(n - width, width)
  {
    if Whole(n) {
      WholeIsEven(n / 2048, n);
    }
    hide Whole;
  }

  /** One aligned access takes a whole operand of what remains. */
  method ReadWhole(d: CdMedia, width: nat) returns (v: seq<byte>)
    requires d.Valid() && (width == 1 || width == 2 || width == 4)
    requires d.xfer == PacketData && Even(d.xferEnd - d.xferOff, width)
    modifies d, d.data
    ensures d.Valid() && |v| == width && v + d.Remaining() == old(d.Remaining())
    ensures d.Complete() || (d.xfer == PacketData && Even(d.xferEnd - d.xferOff, width))
  {
    hide Sectors, Plan, Fetch, Run, Even, Whole, Zeros;
    EvenParts(d.xferEnd - d.xferOff, width);
    v := d.ReadData(width);
    EvenParts(d.xferEnd, width);
    assert v[..width] == v;
  }

  /** Reads while the drive has data: what remained, and nothing else. */
  method ReadOut(d: CdMedia, width: nat) returns (got: seq<byte>)
    requires d.Valid() && (width == 1 || width == 2 || width == 4)
    requires d.xfer == PacketData ==> d.xferOff == 0 && Whole(d.xferEnd)
    requires d.xfer == PacketData || d.xfer == Idle
    modifies d, d.data
    ensures got == old(d.Remaining()) && d.Valid() && d.xfer == Idle
    ensures if old(d.xfer) == PacketData then d.Complete() else unchanged(d)
  {
    hide Sectors, Plan, Fetch, Run, Even, Whole;
    EvenParts(d.xferEnd, width);
    got := [];
    if d.xfer != PacketData {
      return;
    }
    while d.xfer == PacketData
      invariant d.Valid() && got + d.Remaining() == old(d.Remaining())
      invariant d.Complete() || (d.xfer == PacketData && Even(d.xferEnd - d.xferOff, width))
      decreases |d.Remaining()|
    {
      var v := ReadWhole(d, width);
      Regroup(got, v, d.Remaining());
      got := got + v;
    }
  }
}
