/** The audit log's disk image: encoding, decoding, and adopting the previous
    boot's log. */
module AuditImage {
  import opened Common
  import opened Bytes
  import opened AuditChain

  const IMAGE_BYTES: nat := 8192
  const CHECK_OFF: nat := 8188
  const MAGIC: seq<byte> := [0x52, 0x41, 0x59, 0x4E, 0x55, 0x41, 0x55, 0x44]
  const VERSION: byte := 1

  /** Byte sum modulo 2^32. */
  function Sum(b: seq<byte>): (s: nat)
    ensures s < U32
  {
    if b == [] then 0 else (Sum(b[..|b| - 1]) + b[|b| - 1]) % U32
  }

  method Checksum(b: seq<byte>) returns (s: nat)
    ensures s == Sum(b)
  {
    s := 0;
    var i := 0;
    while i < |b|
      invariant 0 <= i <= |b| && s == Sum(b[..i])
    {
      s := (s + b[i]) % U32;
      assert b[..i + 1][..i] == b[..i];
      i := i + 1;
    }
    assert b[..|b|] == b;
  }

  // ---- layout ----

  function Offset(i: nat): nat {
    32 + 24 * i
  }

  function SeqAt(img: seq<byte>, i: nat): nat
    requires Offset(i + 1) <= |img|
  {
    Word(img, Offset(i), 8)
  }

  function KindAt(img: seq<byte>, i: nat): nat
    requires Offset(i + 1) <= |img|
  {
    Word(img, Offset(i) + 8, 8)
  }

  function PrevAt(img: seq<byte>, i: nat): nat
    requires Offset(i + 1) <= |img|
  {
    Word(img, Offset(i) + 16, 8)
  }

  ghost predicate RecordAt(img: seq<byte>, i: nat, r: Record)
    requires Offset(i + 1) <= |img|
  {
    SeqAt(img, i) == r.at && KindAt(img, i) == r.event.kind && PrevAt(img, i) == r.prev
  }

  function NextSeq(rs: seq<Record>): Word64 {
    if rs == [] then 0
    else if rs[|rs| - 1].at == U64 - 1 then U64 - 1
    else rs[|rs| - 1].at + 1
  }

  ghost predicate HeaderFor(img: seq<byte>, rs: seq<Record>, tip: Word64)
    requires |img| >= 32
  {
    && img[..8] == MAGIC && img[8] == VERSION && img[9] == 0
    && Word(img, 10, 2) == |rs| && Word(img, 12, 8) == NextSeq(rs) && Word(img, 20, 8) == tip
    && Blank(img, 28, 32)
  }

  ghost predicate Blank(img: seq<byte>, from: nat, to: nat) {
    forall k {:trigger img[k]} :: from <= k < to <= |img| ==> img[k] == 0
  }

  /** The first `n` records are in place and nothing follows them. */
  ghost predicate Laid(img: seq<byte>, rs: seq<Record>, n: nat)
    requires n <= |rs| <= RING_CAP && |img| >= IMAGE_BYTES
  {
    && (forall i {:trigger rs[i]} :: 0 <= i < n ==> RecordAt(img, i, rs[i]))
    && Blank(img, Offset(n), CHECK_OFF)
  }

  /** The one image of a log: every byte of it is determined. */
  ghost predicate IsImage(img: seq<byte>, rs: seq<Record>, tip: Word64) {
    && |rs| <= RING_CAP && |img| >= IMAGE_BYTES
    && HeaderFor(img, rs, tip) && Laid(img, rs, |rs|)
    && Word(img, CHECK_OFF, 4) == Sum(img[..CHECK_OFF])
  }

  // ---- encoding ----

  method Store(buf: array<byte>, at: nat, b: seq<byte>)
    requires at + |b| <= buf.Length
    modifies buf
    ensures buf[..] == Put(old(buf[..]), at, b)
  {
    forall i | 0 <= i < |b| {
      buf[at + i] := b[i];
    }
    assert buf[..] == Put(old(buf[..]), at, b);
  }

  /** Bytes below a store keep every header and record laid there. */
  lemma HeaderKept(m: seq<byte>, m': seq<byte>, rs: seq<Record>, tip: Word64)
    requires |m| == |m'| >= 32 && m'[..32] == m[..32] && HeaderFor(m, rs, tip)
    ensures HeaderFor(m', rs, tip)
  {
    assert forall k :: 0 <= k < 32 ==> m'[..32][k] == m[..32][k];
    assert m'[..8] == m[..8] && m'[10..12] == m[10..12] && m'[12..20] == m[12..20] && m'[20..28] == m[20..28];
  }

  lemma RecordKept(m: seq<byte>, m': seq<byte>, n: nat, i: nat)
    requires i < n && Offset(n) <= |m| == |m'| && m'[..Offset(n)] == m[..Offset(n)]
    ensures SeqAt(m', i) == SeqAt(m, i) && KindAt(m', i) == KindAt(m, i) && PrevAt(m', i) == PrevAt(m, i)
  {
    var at := Offset(i);
    assert forall k :: 0 <= k < Offset(n) ==> m'[k] == m'[..Offset(n)][k] == m[k];
    assert m'[at..at + 8] == m[at..at + 8];
    assert m'[at + 8..at + 16] == m[at + 8..at + 16];
    assert m'[at + 16..at + 24] == m[at + 16..at + 24];
  }

  method StoreHeader(buf: array<byte>, rs: seq<Record>, tip: Word64)
    requires buf.Length >= IMAGE_BYTES && |rs| <= RING_CAP
    modifies buf
    ensures HeaderFor(buf[..], rs, tip) && Laid(buf[..], rs, 0)
    ensures buf[IMAGE_BYTES..] == old(buf[IMAGE_BYTES..])
  {
    hide Put, ToLE, FromLE, Pow256;
    forall i | 0 <= i < IMAGE_BYTES {
      buf[i] := 0;
    }
    Pow256Values();
    ghost var m0 := buf[..];
    Store(buf, 0, MAGIC);
    ghost var m1 := buf[..];
    Store(buf, 8, [VERSION]);
    ghost var m2 := buf[..];
    Store(buf, 10, ToLE(|rs|, 2));
    ghost var m3 := buf[..];
    PutWord(m2, 10, |rs|, 2);
    Store(buf, 12, ToLE(NextSeq(rs), 8));
    ghost var m4 := buf[..];
    PutWord(m3, 12, NextSeq(rs), 8);
    Store(buf, 20, ToLE(tip, 8));
    PutWord(m4, 20, tip, 8);
    ghost var m := buf[..];
    assert m[..8] == m1[..8];
    assert m[10..12] == m3[10..12];
    assert m[12..20] == m4[12..20];
  }

  /** Three words stored side by side read back and disturb nothing else. */
  lemma ThreeWords(m: seq<byte>, at: nat, a: Word64, b: Word64, c: Word64)
    requires at + 24 <= |m|
    ensures var r := Put(Put(Put(m, at, ToLE(a, 8)), at + 8, ToLE(b, 8)), at + 16, ToLE(c, 8));
            && Word(r, at, 8) == a && Word(r, at + 8, 8) == b && Word(r, at + 16, 8) == c
            && forall k :: 0 <= k < |m| && !(at <= k < at + 24) ==> r[k] == m[k]
  {
    hide Put, ToLE, FromLE, Pow256, Word;
    Pow256Values();
    var m1 := Put(m, at, ToLE(a, 8));
    var m2 := Put(m1, at + 8, ToLE(b, 8));
    PutWord(m, at, a, 8);
    PutWord(m1, at + 8, b, 8);
    PutWord(m2, at + 16, c, 8);
    PutElsewhere(m1, at + 8, ToLE(b, 8), at, 8);
    PutElsewhere(m2, at + 16, ToLE(c, 8), at, 8);
    PutElsewhere(m2, at + 16, ToLE(c, 8), at + 8, 8);
  }

  lemma PutElsewhere(m: seq<byte>, a: nat, s: seq<byte>, at: nat, n: nat)
    requires a + |s| <= |m| && at + n <= a
    ensures Word(Put(m, a, s), at, n) == Word(m, at, n)
  {
    hide Put;
    assert Put(m, a, s)[at..at + n] == m[at..at + n];
  }

  lemma LaidGrows(m: seq<byte>, m': seq<byte>, rs: seq<Record>, i: nat)
    requires |m| == |m'| >= IMAGE_BYTES && i < |rs| <= RING_CAP && Laid(m, rs, i)
    requires RecordAt(m', i, rs[i])
    requires forall k :: 0 <= k < |m| && !(Offset(i) <= k < Offset(i + 1)) ==> m'[k] == m[k]
    ensures Laid(m', rs, i + 1)
  {
    assert m'[..Offset(i)] == m[..Offset(i)];
    forall j | 0 <= j < i
      ensures RecordAt(m', j, rs[j])
    {
      RecordKept(m, m', i, j);
    }
  }

  method StoreRecord(buf: array<byte>, rs: seq<Record>, i: nat, ghost tip: Word64)
    requires buf.Length >= IMAGE_BYTES && i < |rs| <= RING_CAP
    requires HeaderFor(buf[..], rs, tip) && Laid(buf[..], rs, i)
    modifies buf
    ensures HeaderFor(buf[..], rs, tip) && Laid(buf[..], rs, i + 1)
    ensures buf[IMAGE_BYTES..] == old(buf[IMAGE_BYTES..])
  {
    hide HeaderFor, Laid, Put, ToLE;
    var r, at := rs[i], 32 + i * 24;
    ghost var m0 := buf[..];
    Store(buf, at, ToLE(r.at, 8));
    Store(buf, at + 8, ToLE(r.event.kind, 8));
    Store(buf, at + 16, ToLE(r.prev, 8));
    ghost var m := buf[..];
    ThreeWords(m0, at, r.at, r.event.kind, r.prev);
    LaidGrows(m0, m, rs, i);
    assert m[..32] == m0[..32];
    HeaderKept(m0, m, rs, tip);
    assert Offset(i + 1) <= IMAGE_BYTES;
    TailKept(m0, m, IMAGE_BYTES);
  }

  lemma TailKept(m: seq<byte>, m': seq<byte>, from: nat)
    requires |m'| == |m| && from <= |m| && forall k {:trigger m'[k]} :: from <= k < |m| ==> m'[k] == m[k]
    ensures m'[from..] == m[from..]
  {}

  method EncodeRing(ring: AuditRing, buf: array<byte>) returns (ok: bool)
    requires ring.Valid()
    modifies buf
    ensures ok <==> buf.Length >= IMAGE_BYTES
    ensures !ok ==> unchanged(buf)
    ensures ok ==> IsImage(buf[..], ring.records, ring.tip) && buf[IMAGE_BYTES..] == old(buf[IMAGE_BYTES..])
  {
    hide HeaderFor, Laid, Sum;
    if buf.Length < IMAGE_BYTES {
      return false;
    }
    var rs := ring.records;
    StoreHeader(buf, rs, ring.tip);
    var i := 0;
    while i < |rs|
      invariant 0 <= i <= |rs|
      invariant HeaderFor(buf[..], rs, ring.tip) && Laid(buf[..], rs, i)
      invariant buf[IMAGE_BYTES..] == old(buf[IMAGE_BYTES..])
    {
      StoreRecord(buf, rs, i, ring.tip);
      i := i + 1;
    }
    var sum := Checksum(buf[..CHECK_OFF]);
    ghost var m := buf[..];
    Store(buf, CHECK_OFF, ToLE(sum, 4));
    SealImage(m, sum, rs, ring.tip);
    assert buf[IMAGE_BYTES..] == m[IMAGE_BYTES..];
    return true;
  }

  lemma SealImage(m: seq<byte>, sum: nat, rs: seq<Record>, tip: Word64)
    requires |m| >= IMAGE_BYTES && |rs| <= RING_CAP && sum == Sum(m[..CHECK_OFF])
    requires HeaderFor(m, rs, tip) && Laid(m, rs, |rs|)
    ensures IsImage(Put(m, CHECK_OFF, ToLE(sum, 4)), rs, tip)
  {
    hide Sum, HeaderFor;
    Pow256Values();
    var m' := Put(m, CHECK_OFF, ToLE(sum, 4));
    PutWord(m, CHECK_OFF, sum, 4);
    assert m'[..CHECK_OFF] == m[..CHECK_OFF];
    assert m'[..32] == m[..32];
    HeaderKept(m, m', rs, tip);
    assert m'[..Offset(|rs|)] == m[..Offset(|rs|)];
    forall j | 0 <= j < |rs|
      ensures RecordAt(m', j, rs[j])
    {
      RecordKept(m, m', |rs|, j);
    }
  }

  // ---- decoding ----

  function Count(img: seq<byte>): nat
    requires |img| >= IMAGE_BYTES
  {
    Word(img, 10, 2)
  }

  /** The zero-payload event of the kind in slot `i`. */
  function EventAt(img: seq<byte>, i: nat): Event
    requires Offset(i + 1) <= |img|
  {
    Event(if 1 <= KindAt(img, i) <= 81 then KindAt(img, i) else 1, 0)
  }

  /** The events in the first `n` slots. */
  ghost function Slots(img: seq<byte>, n: nat): (es: seq<Event>)
    requires |img| >= IMAGE_BYTES && n <= RING_CAP
    ensures |es| == n && forall i :: 0 <= i < n ==> es[i] == EventAt(img, i)
  {
    seq(n, i requires 0 <= i < n => EventAt(img, i))
  }

  /** Slot `i` holds a known kind, its own number, and the tip before it. */
  ghost predicate SlotOk(img: seq<byte>, i: nat)
    requires |img| >= IMAGE_BYTES && i < RING_CAP
  {
    1 <= KindAt(img, i) <= 81 && SeqAt(img, i) == i && PrevAt(img, i) == Tip(Kinds(Slots(img, i)))
  }

  ghost predicate HeaderOk(img: seq<byte>) {
    && |img| >= IMAGE_BYTES && img[..8] == MAGIC && img[8] == VERSION
    && Word(img, CHECK_OFF, 4) == Sum(img[..CHECK_OFF]) && Count(img) <= RING_CAP
  }

  ghost predicate Decodes(img: seq<byte>) {
    && HeaderOk(img)
    && (forall i :: 0 <= i < Count(img) ==> SlotOk(img, i))
    && Word(img, 20, 8) == Tip(Kinds(Slots(img, Count(img))))
  }

  method DecodeRing(img: seq<byte>) returns (r: Option<AuditRing>)
    ensures r.Some? <==> Decodes(img)
    ensures r.Some? ==> fresh(r.value) && r.value.Holds(Slots(img, Count(img)))
  {
    hide Hash, Sum, Tip;
    if |img| < IMAGE_BYTES || img[..8] != MAGIC || img[8] != VERSION {
      return None;
    }
    var sum := Checksum(img[..CHECK_OFF]);
    if FromLE(img[CHECK_OFF..CHECK_OFF + 4]) != sum || Count(img) > RING_CAP {
      return None;
    }
    var count := Count(img);
    var ring := new AuditRing();
    var i := 0;
    assert Slots(img, 0) == [];
    while i < count
      invariant 0 <= i <= count && fresh(ring) && ring.Holds(Slots(img, i))
      invariant forall j :: 0 <= j < i ==> SlotOk(img, j)
    {
      var good := DecodeSlot(img, i, ring);
      if !good {
        return None;
      }
      i := i + 1;
    }
    var tip := FromLE(img[20..28]);
    if ring.tip != tip || (count == 0 && tip != GENESIS) {
      TipStart([]);
      assert count == 0 ==> Slots(img, count) == [] == Slots(img, count)[..0];
      return None;
    }
    return Some(ring);
  }

  method DecodeSlot(img: seq<byte>, i: nat, ring: AuditRing) returns (good: bool)
    requires |img| >= IMAGE_BYTES && i < RING_CAP && ring.Holds(Slots(img, i))
    modifies ring
    ensures good <==> SlotOk(img, i)
    ensures good ==> ring.Holds(Slots(img, i + 1))
  {
    hide Hash, Tip;
    var kind := KindAt(img, i);
    if !(1 <= kind <= KINDS) {
      return false;
    }
    ghost var es := Slots(img, i);
    var e := Event(kind, 0);
    var ok := ring.Append(e);
    assert ring.Holds(es + [e]);
    assert es + [e] == Slots(img, i + 1);
    var got := ring.records[i];
    return ok && got.at == SeqAt(img, i) && got.prev == PrevAt(img, i) && got.hash == Hash(got.at, kind, got.prev);
  }

  function Zeroed(es: seq<Event>): (zs: seq<Event>)
    ensures |zs| == |es| && forall i :: 0 <= i < |es| ==> zs[i] == Event(es[i].kind, 0)
    ensures Kinds(zs) == Kinds(es)
  {
    seq(|es|, i requires 0 <= i < |es| => Event(es[i].kind, 0))
  }

  /** The image of an intact log decodes to that log, payloads zeroed. */
  lemma RoundTrip(img: seq<byte>, rs: seq<Record>, es: seq<Event>)
    requires Sealed(rs, es) && IsImage(img, rs, Tip(Kinds(es)))
    ensures Decodes(img) && Slots(img, Count(img)) == Zeroed(es)
  {
    hide Sum, Tip;
    forall i | 0 <= i < |rs|
      ensures KindAt(img, i) == es[i].kind
    {
      assert RecordAt(img, i, rs[i]) && LinkOk(rs[i], es, i);
    }
    forall i | 0 <= i < |rs|
      ensures SlotOk(img, i)
    {
      assert RecordAt(img, i, rs[i]) && LinkOk(rs[i], es, i);
      assert Kinds(Slots(img, i)) == Kinds(es[..i]);
    }
    assert Slots(img, |rs|) == Zeroed(es);
  }

  // ---- adopting ----

  method AppendAll(ring: AuditRing, es: seq<Event>, ghost was: seq<Event>)
    requires ring.Holds(was) && |was| + |es| <= RING_CAP
    modifies ring
    ensures ring.Holds(was + es)
  {
    hide LinkOk, Tip;
    var i := 0;
    assert was + es[..0] == was;
    while i < |es|
      invariant 0 <= i <= |es| && ring.Holds(was + es[..i])
      invariant |ring.records| == |was| + i
    {
      var ok := ring.Append(es[i]);
      assert was + es[..i + 1] == was + es[..i] + [es[i]];
      if !ok {
        assert false;
      }
      i := i + 1;
    }
    assert es[..|es|] == es;
  }

  /** Puts the image's log before this boot's events, or leaves the ring as it
      was. Once the image decodes and fits, nothing later can fail. */
  method AdoptImage(ring: AuditRing, img: seq<byte>) returns (ok: bool)
    requires ring.Valid()
    modifies ring
    ensures ok <==> Decodes(img) && Count(img) + old(|ring.records|) <= RING_CAP
    ensures !ok ==> unchanged(ring)
    ensures ok ==> ring.Holds(Slots(img, Count(img)) + Events(old(ring.records)))
  {
    hide Hash, Tip;
    var decoded := DecodeRing(img);
    if decoded.None? {
      return false;
    }
    var prior := decoded.value;
    var sound := prior.VerifyChain();
    SealedVerified(prior.records, Slots(img, Count(img)));
    if !sound || |prior.records| + |ring.records| > RING_CAP {
      return false;
    }
    var kept := Events(ring.records);
    ring.records, ring.nextSeq, ring.tip := prior.records, prior.nextSeq, prior.tip;
    ghost var was := Slots(img, Count(img));
    assert ring.Holds(was);
    AppendAll(ring, kept, was);
    ok := ring.VerifyChain();
    SealedVerified(ring.records, was + kept);
  }

  // ---- many boots ----

  /** One boot: the events before the image is adopted and those after. */
  datatype Boot = Boot(before: seq<Event>, after: seq<Event>)

  /** What of `es` a log with `room` left takes. */
  function Clip(es: seq<Event>, room: nat): (r: seq<Event>)
    ensures r <= es && |r| == Min(|es|, room)
  {
    es[..Min(|es|, room)]
  }

  /** Every kind of every boot, in order. */
  ghost function AllKinds(bs: seq<Boot>): seq<Kind> {
    if bs == [] then [] else AllKinds(bs[..|bs| - 1]) + Kinds(bs[|bs| - 1].before + bs[|bs| - 1].after)
  }

  /** A boot's log: the previous one, payloads zeroed, in front of its own
      events if there is room for both, and as many more events as fit. */
  function NextLog(prior: seq<Event>, b: Boot): (r: seq<Event>)
    ensures |r| <= RING_CAP
  {
    var own := Clip(b.before, RING_CAP);
    var joined := if |prior| + |own| <= RING_CAP then Zeroed(prior) + own else own;
    joined + Clip(b.after, RING_CAP - |joined|)
  }

  /** What the last boot's ring holds. */
  ghost function History(bs: seq<Boot>): (es: seq<Event>)
    ensures |es| <= RING_CAP
  {
    if bs == [] then [] else NextLog(History(bs[..|bs| - 1]), bs[|bs| - 1])
  }

  /** While everything fits, nothing is lost: the kinds are the concatenation
      over all boots. */
  lemma {:induction false} HistoryKinds(bs: seq<Boot>)
    requires |AllKinds(bs)| <= RING_CAP
    ensures Kinds(History(bs)) == AllKinds(bs)
  {
    if bs != [] {
      var n := |bs| - 1;
      HistoryKinds(bs[..n]);
      var prior, b := History(bs[..n]), bs[n];
      assert NextLog(prior, b) == Zeroed(prior) + b.before + b.after;
      assert Kinds(Zeroed(prior) + b.before + b.after) == Kinds(Zeroed(prior)) + Kinds(b.before + b.after);
    }
  }

  /** Boot after boot, each writing its image and the next adopting it, ends in
      one intact chain from genesis over the history, numbered from zero;
      while everything fits, over every event kind of every boot. */
  method Boots(bs: seq<Boot>) returns (ring: AuditRing)
    ensures fresh(ring) && ring.Holds(History(bs))
    ensures |AllKinds(bs)| <= RING_CAP ==> Kinds(Events(ring.records)) == AllKinds(bs)
    ensures Verified(ring.records) && forall i :: 0 <= i < |ring.records| ==> ring.records[i].at == i
    decreases |bs|
  {
    hide Hash, Tip, NextLog;
    if |AllKinds(bs)| <= RING_CAP {
      HistoryKinds(bs);
    }
    if bs == [] {
      ring := new AuditRing();
    } else {
      var n := |bs| - 1;
      var prior := Boots(bs[..n]);
      ring := NextBoot(prior, bs[n], History(bs[..n]));
    }
    SealedVerified(ring.records, History(bs));
    SealedKinds(ring.records, History(bs));
  }

  lemma SealedKinds(rs: seq<Record>, es: seq<Event>)
    requires Sealed(rs, es)
    ensures Events(rs) == es && forall i :: 0 <= i < |rs| ==> rs[i].at == i
  {
    forall i | 0 <= i < |rs|
      ensures rs[i].event == es[i] && rs[i].at == i
    {
      assert LinkOk(rs[i], es, i);
    }
  }

  /** Records events one by one; a full log drops the rest. */
  method RecordAll(ring: AuditRing, es: seq<Event>, ghost was: seq<Event>)
    requires ring.Holds(was)
    modifies ring
    ensures ring.Holds(was + Clip(es, RING_CAP - |was|))
  {
    hide LinkOk, Tip;
    var i := 0;
    assert was + Clip(es[..0], RING_CAP - |was|) == was;
    while i < |es|
      invariant 0 <= i <= |es| && |was| <= RING_CAP && ring.Holds(was + Clip(es[..i], RING_CAP - |was|))
    {
      ghost var held := was + Clip(es[..i], RING_CAP - |was|);
      assert |ring.records| == |held|;
      var ok := ring.Append(es[i]);
      assert was + Clip(es[..i + 1], RING_CAP - |was|) == if |held| < RING_CAP then held + [es[i]] else held;
      i := i + 1;
    }
    assert es[..|es|] == es;
  }

  method NextBoot(prior: AuditRing, b: Boot, ghost es: seq<Event>) returns (ring: AuditRing)
    requires prior.Holds(es)
    ensures fresh(ring) && ring.Holds(NextLog(es, b))
  {
    hide Hash, Tip, HeaderFor, Laid, Sum, LinkOk;
    var buf := new byte[IMAGE_BYTES];
    var written := EncodeRing(prior, buf);
    RoundTrip(buf[..], prior.records, es);
    ring := new AuditRing();
    RecordAll(ring, b.before, []);
    ghost var own := Clip(b.before, RING_CAP);
    assert [] + own == own;
    SealedKinds(ring.records, own);
    var adopted := AdoptImage(ring, buf[..]);
    ghost var joined := if |es| + |own| <= RING_CAP then Zeroed(es) + own else own;
    assert ring.Holds(joined);
    RecordAll(ring, b.after, joined);
  }
}
