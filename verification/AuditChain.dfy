/** The hash-linked audit log. */
module AuditChain {
  import opened Common
  import Bits

  type Word64 = x: nat | x < 0x1_0000_0000_0000_0000

  const GENESIS: Word64 := 0x5241_594E_552D_5630
  const RING_CAP: nat := 256
  const KINDS: nat := 81

  // ---- the record hash ----

  const BASIS: Word64 := 0xcbf2_9ce4_8422_2325

  lemma Pow64()
    ensures Bits.Pow2(64) == U64
  {
    assert Bits.Pow2(8) == 256;
    Bits.Pow2Add(8, 8);
    Bits.Pow2Add(16, 16);
    Bits.Pow2Add(32, 32);
  }

  function Multiply(x: Word64): Word64 {
    x * 0x100000001b3 % 0x1_0000_0000_0000_0000
  }

  /** An odd multiplier has an inverse modulo 2^64. */
  lemma MultiplyInverse(x: Word64)
    ensures Multiply(x) * 0xce965057aff6957b % U64 == x
  {
    var k := x * 0x100000001b3 / 0x1_0000_0000_0000_0000;
    assert x * 0x100000001b3 == k * 0x1_0000_0000_0000_0000 + Multiply(x);
    var t := x * 0xce9650590f - k * 0xce965057aff6957b;
    assert Multiply(x) * 0xce965057aff6957b == t * U64 + x;
    assert t >= 0;
    Bits.DivUnique(Multiply(x) * 0xce965057aff6957b, U64, t, x);
  }

  function Mix(h: Word64, x: Word64): Word64 {
    Pow64();
    Bits.XorBound(h, x, 64);
    Multiply(Bits.Xor(h, x))
  }

  lemma MixInjective(h: Word64, x: Word64, y: Word64)
    requires Mix(h, x) == Mix(h, y) || Mix(x, h) == Mix(y, h)
    ensures x == y
  {
    Pow64();
    Bits.XorCommutes(h, x);
    Bits.XorCommutes(h, y);
    Bits.XorBound(x, h, 64);
    Bits.XorBound(y, h, 64);
    MultiplyInverse(Bits.Xor(x, h));
    MultiplyInverse(Bits.Xor(y, h));
    Bits.XorCancels(x, h);
    Bits.XorCancels(y, h);
  }

  type Kind = k: nat | 1 <= k <= 81 witness 1

  /** An event: its kind, and fields the hash does not cover. */
  datatype Event = Event(kind: Kind, payload: int)

  function Hash(at: Word64, kind: Kind, prev: Word64): Word64 {
    Mix(Mix(Mix(BASIS, at), kind), prev)
  }

  /** Changing any one of the three inputs changes the hash. */
  lemma HashInjective(at: Word64, kind: Kind, prev: Word64, at': Word64, kind': Kind, prev': Word64)
    requires (at == at' && kind == kind') || (at == at' && prev == prev') || (kind == kind' && prev == prev')
    requires Hash(at, kind, prev) == Hash(at', kind', prev')
    ensures at == at' && kind == kind' && prev == prev'
  {
    hide Mix;
    var a, a' := Mix(BASIS, at), Mix(BASIS, at');
    var b, b' := Mix(a, kind), Mix(a', kind');
    if at == at' && kind == kind' {
      MixInjective(b, prev, prev');
    } else {
      MixInjective(prev, b, b');
      if at == at' {
        MixInjective(a, kind, kind');
      } else {
        MixInjective(kind, a, a');
        MixInjective(BASIS, at, at');
      }
    }
  }

  // ---- chains ----

  /** The tip after these kinds are appended to an empty log. */
  ghost function Tip(kinds: seq<Kind>): Word64
    requires |kinds| <= RING_CAP
  {
    if kinds == [] then GENESIS
    else Hash(|kinds| - 1, kinds[|kinds| - 1], Tip(kinds[..|kinds| - 1]))
  }

  /** A log with one entry's kind replaced ends on another tip. */
  lemma {:induction false} OneKindMovesTheTip(a: seq<Kind>, j: nat, k: Kind)
    requires |a| <= RING_CAP && j < |a| && k != a[j]
    ensures Tip(a[j := k]) != Tip(a)
    decreases |a|
  {
    hide Hash;
    var n := |a| - 1;
    var b := a[j := k];
    if j == n {
      assert b[..n] == a[..n];
      if Tip(b) == Tip(a) {
        HashInjective(n, a[n], Tip(a[..n]), n, k, Tip(a[..n]));
      }
    } else {
      assert b[..n] == a[..n][j := k];
      OneKindMovesTheTip(a[..n], j, k);
      if Tip(b) == Tip(a) {
        HashInjective(n, a[n], Tip(a[..n]), n, a[n], Tip(b[..n]));
      }
    }
  }

  datatype Record = Record(at: Word64, event: Event, prev: Word64, hash: Word64)

  function Events(rs: seq<Record>): (es: seq<Event>)
    ensures |es| == |rs| && forall i :: 0 <= i < |rs| ==> es[i] == rs[i].event
  {
    seq(|rs|, i requires 0 <= i < |rs| => rs[i].event)
  }

  function Kinds(es: seq<Event>): (ks: seq<Kind>)
    ensures |ks| == |es| && forall i :: 0 <= i < |es| ==> ks[i] == es[i].kind
  {
    seq(|es|, i requires 0 <= i < |es| => es[i].kind)
  }

  /** Link `i` of a log built by appending `es`. */
  ghost predicate LinkOk(r: Record, es: seq<Event>, i: nat)
    requires i < |es| <= RING_CAP
  {
    && r.at == i && r.event == es[i]
    && r.prev == Tip(Kinds(es[..i])) && r.hash == Tip(Kinds(es[..i + 1]))
  }

  /** `rs` is what appending `es` to an empty log leaves. */
  ghost predicate Sealed(rs: seq<Record>, es: seq<Event>) {
    |rs| == |es| <= RING_CAP && forall i {:trigger rs[i]} :: 0 <= i < |rs| ==> LinkOk(rs[i], es, i)
  }

  lemma TipStep(es: seq<Event>, i: nat)
    requires i < |es| <= RING_CAP
    ensures Tip(Kinds(es[..i + 1])) == Hash(i, es[i].kind, Tip(Kinds(es[..i])))
  {
    hide Hash;
    assert Kinds(es[..i + 1])[..i] == Kinds(es[..i]);
  }

  lemma SealedGrows(rs: seq<Record>, es: seq<Event>, e: Event, r: Record)
    requires Sealed(rs, es) && |es| < RING_CAP
    requires r == Record(|es|, e, Tip(Kinds(es)), Hash(|es|, e.kind, Tip(Kinds(es))))
    ensures Sealed(rs + [r], es + [e])
    ensures Tip(Kinds(es + [e])) == r.hash
  {
    hide Hash;
    var es' := es + [e];
    TipStep(es', |es|);
    assert es'[..|es|] == es && es'[..|es| + 1] == es';
    forall i | 0 <= i < |es'|
      ensures LinkOk((rs + [r])[i], es', i)
    {
      if i < |es| {
        assert es'[..i] == es[..i] && es'[..i + 1] == es[..i + 1];
        assert LinkOk(rs[i], es, i);
      }
    }
  }

  // ---- verifying ----

  /** One link matches its hash and follows on from `prev`. */
  predicate Follows(r: Record, prev: Word64) {
    r.prev == prev && r.hash == Hash(r.at, r.event.kind, r.prev)
  }

  function PrevOf(rs: seq<Record>, i: nat): Word64
    requires i <= |rs|
  {
    if i == 0 then GENESIS else rs[i - 1].hash
  }

  ghost predicate Verified(rs: seq<Record>) {
    forall i {:trigger rs[i]} :: 0 <= i < |rs| ==> Follows(rs[i], PrevOf(rs, i))
  }

  lemma SealedVerified(rs: seq<Record>, es: seq<Event>)
    requires Sealed(rs, es)
    ensures Verified(rs)
  {
    hide Hash;
    forall i | 0 <= i < |rs|
      ensures Follows(rs[i], PrevOf(rs, i))
    {
      assert LinkOk(rs[i], es, i);
      TipStep(es, i);
      if i > 0 {
        assert LinkOk(rs[i - 1], es, i - 1);
      } else {
        assert es[..0] == [];
      }
    }
  }

  /** With its entries numbered from zero, a log verifies exactly when it is
      the one appending its events builds. */
  lemma VerifiedIff(rs: seq<Record>)
    requires |rs| <= RING_CAP && forall i :: 0 <= i < |rs| ==> rs[i].at == i
    ensures Verified(rs) <==> Sealed(rs, Events(rs))
  {
    var es := Events(rs);
    if Verified(rs) {
      forall i | 0 <= i < |rs|
        ensures LinkOk(rs[i], es, i)
      {
        VerifiedLink(rs, i);
      }
    }
    if Sealed(rs, es) {
      SealedVerified(rs, es);
    }
  }

  lemma VerifiedAt(rs: seq<Record>, i: nat)
    requires Verified(rs) && i < |rs|
    ensures Follows(rs[i], PrevOf(rs, i))
  {}

  lemma TipStart(es: seq<Event>)
    requires |es| <= RING_CAP
    ensures Tip(Kinds(es[..0])) == GENESIS
  {}

  lemma {:induction false} VerifiedLink(rs: seq<Record>, i: nat)
    requires i < |rs| <= RING_CAP && forall j :: 0 <= j < |rs| ==> rs[j].at == j
    requires Verified(rs)
    ensures LinkOk(rs[i], Events(rs), i)
  {
    hide Hash, Tip, Verified;
    TipStep(Events(rs), i);
    VerifiedAt(rs, i);
    if i > 0 {
      VerifiedLink(rs, i - 1);
    } else {
      TipStart(Events(rs));
    }
  }

  /** Two records with the same event payload that differ in exactly one of
      number, kind, previous hash and hash. */
  ghost predicate OneFieldApart(r: Record, q: Record) {
    || (exists at :: at != r.at && q == r.(at := at))
    || (exists kind :: kind != r.event.kind && q == r.(event := r.event.(kind := kind)))
    || (exists prev :: prev != r.prev && q == r.(prev := prev))
    || (exists hash :: hash != r.hash && q == r.(hash := hash))
  }

  /** A change to any one field that the chain covers, in any record of a
      verified log, is noticed. */
  lemma ChangedRecordFails(rs: seq<Record>, i: nat, q: Record)
    requires Verified(rs) && i < |rs| && OneFieldApart(rs[i], q)
    ensures !Verified(rs[i := q])
  {
    hide Hash, Verified;
    var r := rs[i];
    VerifiedAt(rs, i);
    if Verified(rs[i := q]) {
      VerifiedAt(rs[i := q], i);
      assert PrevOf(rs[i := q], i) == PrevOf(rs, i);
      HashInjective(r.at, r.event.kind, r.prev, q.at, q.event.kind, q.prev);
    }
  }

  /** The payload is not covered: changing it is not. */
  lemma PayloadUnnoticed(rs: seq<Record>, i: nat, payload: int)
    requires i < |rs|
    ensures Verified(rs[i := rs[i].(event := rs[i].event.(payload := payload))]) <==> Verified(rs)
  {
    hide Hash;
    var rs' := rs[i := rs[i].(event := rs[i].event.(payload := payload))];
    forall j | 0 <= j < |rs|
      ensures Follows(rs'[j], PrevOf(rs', j)) <==> Follows(rs[j], PrevOf(rs, j))
    {}
  }

  const TAMPER: Word64 := 0xDEAD_BEEF_CAFE_BABE

  lemma TamperMoves(h: Word64)
    ensures Bits.Xor(h, TAMPER) != h && Bits.Xor(h, TAMPER) < U64
  {
    Pow64();
    Bits.XorBound(h, TAMPER, 64);
    if Bits.Xor(h, TAMPER) == h {
      Bits.XorZero(h);
      Bits.XorCommutes(h, TAMPER);
      Bits.XorCommutes(h, 0);
      Bits.XorCancels(TAMPER, h);
      Bits.XorCancels(0, h);
    }
  }

  class AuditRing {
    var records: seq<Record>
    var nextSeq: nat
    var tip: Word64

    ghost predicate Valid()
      reads this
    {
      |records| <= RING_CAP && nextSeq == |records|
    }

    /** The log is intact and holds these events. */
    ghost predicate Holds(es: seq<Event>)
      reads this
    {
      Valid() && Sealed(records, es) && tip == Tip(Kinds(es))
    }

    constructor ()
      ensures Holds([])
    {
      records, nextSeq, tip := [], 0, GENESIS;
    }

    method Append(e: Event) returns (ok: bool)
      requires Valid()
      modifies this
      ensures Valid() && (ok <==> old(|records|) < RING_CAP)
      ensures !ok ==> unchanged(this)
      ensures ok ==> var n := old(nextSeq);
                     && records == old(records) + [Record(n, e, old(tip), Hash(n, e.kind, old(tip)))]
                     && tip == Hash(n, e.kind, old(tip))
      ensures forall es {:trigger old(Holds(es))} :: old(Holds(es)) && ok ==> Holds(es + [e])
    {
      hide Hash;
      if |records| >= RING_CAP {
        return false;
      }
      ghost var was := records;
      var hash := Hash(nextSeq, e.kind, tip);
      records := records + [Record(nextSeq, e, tip, hash)];
      nextSeq := nextSeq + 1;
      tip := hash;
      forall es | old(Holds(es))
        ensures Holds(es + [e])
      {
        SealedGrows(was, es, e, records[|was|]);
      }
      return true;
    }

    method VerifyChain() returns (ok: bool)
      ensures ok <==> Verified(records)
    {
      hide Hash;
      var prev := GENESIS;
      var i := 0;
      while i < |records|
        invariant 0 <= i <= |records| && prev == PrevOf(records, i)
        invariant forall j {:trigger records[j]} :: 0 <= j < i ==> Follows(records[j], PrevOf(records, j))
      {
        var r := records[i];
        if r.prev != prev || r.hash != Hash(r.at, r.event.kind, r.prev) {
          assert !Follows(records[i], PrevOf(records, i));
          return false;
        }
        prev := r.hash;
        i := i + 1;
      }
      return true;
    }

    method TamperHashAt(i: nat) returns (ok: bool)
      requires Valid()
      modifies this`records
      ensures Valid() && (ok <==> i < |old(records)|)
      ensures !ok ==> records == old(records)
      ensures ok ==> |records| == |old(records)| && records[i].hash != old(records)[i].hash
      ensures ok && Verified(old(records)) ==> !Verified(records)
    {
      if i >= |records| {
        return false;
      }
      TamperMoves(records[i].hash);
      ghost var was := records;
      records := records[i := records[i].(hash := Bits.Xor(records[i].hash, TAMPER))];
      if Verified(was) {
        ChangedRecordFails(was, i, records[i]);
      }
      return true;
    }
  }
}
