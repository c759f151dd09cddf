/** Cutting the identity window into claimed ranges: private holes for the
    shell guests, everything between them for the bring-up guest G0. */
module EptRanges {
  import opened Common
  import opened EptError

  const WINDOW: nat := 512 * 1024 * 1024
  const RAM: nat := 256 * 1024 * 1024
  const G0: nat := 1
  const RANGE_CAP: nat := 16
  const HOLE_CAP: nat := 8

  datatype Hole = Hole(hpa: nat, len: nat, guest: nat)
  datatype Range = Range(guest: nat, gpa: nat, len: nat)

  predicate Inside(r: Range, x: nat) {
    r.gpa <= x < r.gpa + r.len
  }

  predicate InHole(h: Hole, x: nat) {
    h.hpa <= x < h.hpa + h.len
  }

  /** Claim one range: page-aligned, not empty, clear of every other claim. */
  function Claim(rs: seq<Range>, r: Range): (out: Result<seq<Range>>) {
    if r.guest == 0 then Err(InvalidGuest)
    else if r.len == 0 || r.gpa % 4096 != 0 || r.len % 4096 != 0 || r.gpa + r.len >= U64 then Err(Invariant)
    else if exists i :: 0 <= i < |rs| && r.gpa < rs[i].gpa + rs[i].len && rs[i].gpa < r.gpa + r.len then Err(AlreadyOwned)
    else if |rs| >= RANGE_CAP then Err(Full)
    else Ok(rs + [r])
  }

  /** What the sweep asks of a hole, whatever its neighbours. */
  predicate Proper(h: Hole) {
    && h.len > 0 && h.hpa % 4096 == 0 && h.len % 4096 == 0
    && h.guest != 0 && h.guest != G0 && RAM <= h.hpa && h.hpa + h.len <= WINDOW
  }

  /** Walk the holes upwards, claiming the gap before each one for G0. */
  function Sweep(s: seq<Hole>, cursor: nat, rs: seq<Range>): (out: Result<seq<Range>>)
    decreases |s|
  {
    if s == [] then
      if cursor < WINDOW then Claim(rs, Range(G0, cursor, WINDOW - cursor)) else Ok(rs)
    else
      var h := s[0];
      if h.len == 0 || h.hpa % 4096 != 0 || h.len % 4096 != 0 then Err(Invariant)
      else if h.guest == 0 || h.guest == G0 then Err(InvalidGuest)
      else if h.hpa + h.len >= U64 then Err(Invariant)
      else if h.hpa + h.len > WINDOW || h.hpa < cursor then Err(Invariant)
      else if h.hpa < RAM then Err(Invariant)
      else
        var r1 :- if h.hpa > cursor then Claim(rs, Range(G0, cursor, h.hpa - cursor)) else Ok(rs);
        var r2 :- Claim(r1, Range(h.guest, h.hpa, h.len));
        Sweep(s[1..], h.hpa + h.len, r2)
  }

  // ---- what an accepted sweep leaves behind ----

  /** `rs` cuts `[0, end)` into consecutive non-empty ranges. */
  predicate Tiles(rs: seq<Range>, end: nat) {
    && (forall i :: 0 <= i < |rs| ==> rs[i].len > 0)
    && (forall i :: 0 <= i < |rs| ==> rs[i].gpa == EndOf(rs, i))
    && EndOf(rs, |rs|) == end
  }

  /** Where the first `k` ranges end. */
  function EndOf(rs: seq<Range>, k: nat): nat
    requires k <= |rs|
  {
    if k == 0 then 0 else EndOf(rs, k - 1) + rs[k - 1].len
  }

  lemma {:induction false} EndGrows(rs: seq<Range>, i: nat, k: nat)
    requires i <= k <= |rs|
    ensures EndOf(rs, i) <= EndOf(rs, k)
  {
    if i < k {
      EndGrows(rs, i, k - 1);
    }
  }

  lemma {:induction false} EndPrefix(rs: seq<Range>, r: Range, k: nat)
    requires k <= |rs|
    ensures EndOf(rs + [r], k) == EndOf(rs, k)
  {
    if k > 0 {
      EndPrefix(rs, r, k - 1);
    }
  }

  lemma TilesAppend(rs: seq<Range>, end: nat, r: Range)
    requires Tiles(rs, end) && r.gpa == end && r.len > 0
    ensures Tiles(rs + [r], end + r.len)
  {
    hide EndOf;
    forall k | 0 <= k <= |rs| ensures EndOf(rs + [r], k) == EndOf(rs, k) {
      EndPrefix(rs, r, k);
    }
    EndStep(rs + [r], |rs|);
  }

  lemma EndZero(rs: seq<Range>)
    ensures EndOf(rs, 0) == 0
  {}

  lemma EndStep(rs: seq<Range>, k: nat)
    requires k < |rs|
    ensures EndOf(rs, k + 1) == EndOf(rs, k) + rs[k].len
  {}

  /** Each address below the end is in exactly one range. */
  lemma {:induction false} TilesCover(rs: seq<Range>, k: nat, x: nat) returns (i: nat)
    requires k <= |rs| && Tiles(rs, EndOf(rs, |rs|)) && x < EndOf(rs, k)
    ensures i < k && Inside(rs[i], x)
  {
    hide EndOf;
    EndZero(rs);
    EndStep(rs, k - 1);
    if x < EndOf(rs, k - 1) {
      i := TilesCover(rs, k - 1, x);
    } else {
      i := k - 1;
    }
  }

  lemma TilesOnce(rs: seq<Range>, end: nat, i: nat, j: nat, x: nat)
    requires Tiles(rs, end) && i < |rs| && j < |rs| && Inside(rs[i], x) && Inside(rs[j], x)
    ensures i == j
  {
    if i < j {
      EndGrows(rs, i + 1, j);
    } else if j < i {
      EndGrows(rs, j + 1, i);
    }
  }

  /** A claim that starts where the tiles end is refused only for lack of room. */
  lemma ClaimNext(rs: seq<Range>, end: nat, r: Range)
    requires Tiles(rs, end) && r.gpa == end && r.len > 0 && r.guest != 0
    requires end % 4096 == 0 && r.len % 4096 == 0 && end + r.len < U64
    ensures Claim(rs, r) == if |rs| >= RANGE_CAP then Err(Full) else Ok(rs + [r])
  {
    forall i | 0 <= i < |rs| ensures rs[i].gpa + rs[i].len <= end {
      EndStep(rs, i);
      EndGrows(rs, i + 1, |rs|);
    }
  }

  // ---- when a sweep is accepted ----

  /** Each hole starts at or after the end of the one before it. */
  predicate InOrder(s: seq<Hole>, cursor: nat) {
    s != [] ==> cursor <= s[0].hpa && InOrder(s[1..], s[0].hpa + s[0].len)
  }

  /** Ranges the sweep claims: a hole each, the gaps, and the tail. */
  function Pieces(s: seq<Hole>, cursor: nat): nat {
    if s == [] then if cursor < WINDOW then 1 else 0
    else (if s[0].hpa > cursor then 2 else 1) + Pieces(s[1..], s[0].hpa + s[0].len)
  }

  predicate AllProper(s: seq<Hole>) {
    forall i :: 0 <= i < |s| ==> Proper(s[i])
  }

  /** Acceptance: proper holes, in order, and few enough pieces. */
  predicate Acceptable(s: seq<Hole>, cursor: nat, used: nat) {
    AllProper(s) && InOrder(s, cursor) && used + Pieces(s, cursor) <= RANGE_CAP
  }

  lemma NoneImproper()
    ensures AllProper([])
  {}

  lemma AllProperTail(s: seq<Hole>)
    requires s != []
    ensures AllProper(s) <==> Proper(s[0]) && AllProper(s[1..])
  {
    if Proper(s[0]) && AllProper(s[1..]) {
      forall i | 0 <= i < |s| ensures Proper(s[i]) {
        if i > 0 {
          assert Proper(s[1..][i - 1]);
        }
      }
    }
  }

  /** The sweep from a given point: exactly when it succeeds, and that it then
      tiles the whole window. */
  lemma {:induction false} SweepIff(s: seq<Hole>, cursor: nat, rs: seq<Range>)
    requires Tiles(rs, cursor) && cursor <= WINDOW && cursor % 4096 == 0 && |rs| <= RANGE_CAP
    ensures Sweep(s, cursor, rs).Ok? <==> Acceptable(s, cursor, |rs|)
    ensures Sweep(s, cursor, rs).Ok? ==> Tiles(Sweep(s, cursor, rs).value, WINDOW) && rs <= Sweep(s, cursor, rs).value
    decreases |s|
  {
    hide Tiles, Claim, AllProper;
    if s == [] {
      NoneImproper();
      if cursor < WINDOW {
        ClaimNext(rs, cursor, Range(G0, cursor, WINDOW - cursor));
        TilesAppend(rs, cursor, Range(G0, cursor, WINDOW - cursor));
      }
    } else {
      AllProperTail(s);
      var h := s[0];
      if Proper(h) && cursor <= h.hpa {
        var gap := Range(G0, cursor, h.hpa - cursor);
        var hole := Range(h.guest, h.hpa, h.len);
        if h.hpa > cursor {
          ClaimNext(rs, cursor, gap);
          TilesAppend(rs, cursor, gap);
        }
        var r1 := if h.hpa > cursor then rs + [gap] else rs;
        if |r1| <= RANGE_CAP {
          ClaimNext(r1, h.hpa, hole);
          TilesAppend(r1, h.hpa, hole);
          if |r1| < RANGE_CAP {
            SweepIff(s[1..], h.hpa + h.len, r1 + [hole]);
          }
        }
      }
    }
  }

  // ---- ownership ----

  predicate IsHole(r: Range, s: seq<Hole>) {
    exists j :: 0 <= j < |s| && r == Range(s[j].guest, s[j].hpa, s[j].len)
  }

  predicate ClearOf(r: Range, s: seq<Hole>) {
    forall j :: 0 <= j < |s| ==> r.gpa + r.len <= s[j].hpa || s[j].hpa + s[j].len <= r.gpa
  }

  lemma {:induction false} InOrderAll(s: seq<Hole>, cursor: nat, j: nat)
    requires InOrder(s, cursor) && j < |s|
    ensures cursor <= s[j].hpa
    decreases |s|
  {
    if j > 0 {
      InOrderAll(s[1..], s[0].hpa + s[0].len, j - 1);
    }
  }

  /** The ranges past `k`, and the holes still ahead when there were `k`. */
  ghost predicate PartitionFrom(rs: seq<Range>, k: nat, s: seq<Hole>) {
    && (forall j :: 0 <= j < |s| ==> Range(s[j].guest, s[j].hpa, s[j].len) in rs)
    && (forall i :: k <= i < |rs| ==> IsHole(rs[i], s) || (rs[i].guest == G0 && ClearOf(rs[i], s)))
  }

  lemma IsHoleTail(r: Range, s: seq<Hole>)
    requires s != [] && IsHole(r, s[1..])
    ensures IsHole(r, s)
  {
    var j :| 0 <= j < |s[1..]| && r == Range(s[1..][j].guest, s[1..][j].hpa, s[1..][j].len);
    assert s[j + 1] == s[1..][j];
  }

  lemma ClearOfTail(r: Range, s: seq<Hole>)
    requires s != [] && ClearOf(r, s[1..]) && s[0].hpa + s[0].len <= r.gpa
    ensures ClearOf(r, s)
  {
    forall j | 0 <= j < |s| ensures r.gpa + r.len <= s[j].hpa || s[j].hpa + s[j].len <= r.gpa {
      if j > 0 {
        assert s[j] == s[1..][j - 1];
      }
    }
  }

  /** Putting the first hole, and the gap before it, in front of the rest. */
  lemma PartitionStep(s: seq<Hole>, cursor: nat, rs: seq<Range>, out: seq<Range>)
    requires s != [] && InOrder(s, cursor) && Tiles(out, WINDOW)
    requires var gap, hole := Range(G0, cursor, s[0].hpa - cursor), Range(s[0].guest, s[0].hpa, s[0].len);
             var r2 := (if s[0].hpa > cursor then rs + [gap] else rs) + [hole];
             r2 <= out && PartitionFrom(out, |r2|, s[1..])
    ensures PartitionFrom(out, |rs|, s)
  {
    hide EndOf, IsHole, ClearOf;
    var gap, hole := Range(G0, cursor, s[0].hpa - cursor), Range(s[0].guest, s[0].hpa, s[0].len);
    var r1 := if s[0].hpa > cursor then rs + [gap] else rs;
    assert out[|r1|] == (r1 + [hole])[|r1|] == hole;
    forall j | 0 <= j < |s| ensures Range(s[j].guest, s[j].hpa, s[j].len) in out {
      if j > 0 {
        assert s[j] == s[1..][j - 1];
      }
    }
    forall i | |rs| <= i < |out| ensures IsHole(out[i], s) || (out[i].guest == G0 && ClearOf(out[i], s)) {
      if i > |r1| {
        EndStep(out, |r1|);
        EndGrows(out, |r1| + 1, i);
        if IsHole(out[i], s[1..]) {
          IsHoleTail(out[i], s);
        } else {
          ClearOfTail(out[i], s);
        }
      } else if i == |r1| {
        assert IsHole(out[i], s) by { FirstIsHole(s); }
      } else {
        assert out[i] == (r1 + [hole])[i] == gap;
        GapClear(s, cursor);
      }
    }
  }

  lemma FirstIsHole(s: seq<Hole>)
    requires s != []
    ensures IsHole(Range(s[0].guest, s[0].hpa, s[0].len), s)
  {}

  lemma GapClear(s: seq<Hole>, cursor: nat)
    requires s != [] && InOrder(s, cursor)
    ensures ClearOf(Range(G0, cursor, s[0].hpa - cursor), s)
  {
    forall j | 0 <= j < |s| ensures s[0].hpa <= s[j].hpa {
      assert InOrder(s, s[0].hpa);
      InOrderAll(s, s[0].hpa, j);
    }
  }

  lemma LastPartition(cursor: nat, rs: seq<Range>)
    requires Tiles(rs, cursor) && cursor <= WINDOW && cursor % 4096 == 0 && |rs| <= RANGE_CAP
    requires Sweep([], cursor, rs).Ok?
    ensures rs <= Sweep([], cursor, rs).value && PartitionFrom(Sweep([], cursor, rs).value, |rs|, [])
  {
    hide Tiles, Claim;
    if cursor < WINDOW {
      ClaimNext(rs, cursor, Range(G0, cursor, WINDOW - cursor));
    }
  }

  lemma {:induction false} SweepPartition(s: seq<Hole>, cursor: nat, rs: seq<Range>)
    requires Tiles(rs, cursor) && cursor <= WINDOW && cursor % 4096 == 0 && |rs| <= RANGE_CAP
    requires Sweep(s, cursor, rs).Ok?
    ensures rs <= Sweep(s, cursor, rs).value && PartitionFrom(Sweep(s, cursor, rs).value, |rs|, s)
    decreases |s|
  {
    hide Tiles, Claim, Pieces, PartitionFrom;
    SweepIff(s, cursor, rs);
    if s == [] {
      LastPartition(cursor, rs);
    } else {
      var h := s[0];
      var gap := Range(G0, cursor, h.hpa - cursor);
      var hole := Range(h.guest, h.hpa, h.len);
      assert Proper(h);
      if h.hpa > cursor {
        ClaimNext(rs, cursor, gap);
        TilesAppend(rs, cursor, gap);
      }
      var r1 := if h.hpa > cursor then rs + [gap] else rs;
      ClaimNext(r1, h.hpa, hole);
      TilesAppend(r1, h.hpa, hole);
      SweepIff(s[1..], h.hpa + h.len, r1 + [hole]);
      SweepPartition(s[1..], h.hpa + h.len, r1 + [hole]);
      PartitionStep(s, cursor, rs, Sweep(s, cursor, rs).value);
    }
  }

  /** Who owns address `x`: the guest of the hole it lies in, G0 otherwise. */
  lemma Ownership(rs: seq<Range>, s: seq<Hole>, x: nat) returns (i: nat)
    requires Tiles(rs, WINDOW) && PartitionFrom(rs, 0, s) && AllProper(s) && x < WINDOW
    ensures i < |rs| && Inside(rs[i], x)
    ensures forall k :: 0 <= k < |rs| && Inside(rs[k], x) ==> k == i
    ensures forall j :: 0 <= j < |s| && InHole(s[j], x) ==> rs[i].guest == s[j].guest
    ensures (forall j :: 0 <= j < |s| ==> !InHole(s[j], x)) ==> rs[i].guest == G0
    ensures x < RAM ==> rs[i].guest == G0
  {
    hide EndOf;
    i := TilesCover(rs, |rs|, x);
    forall k | 0 <= k < |rs| && Inside(rs[k], x) ensures k == i {
      TilesOnce(rs, WINDOW, i, k, x);
    }
    forall j | 0 <= j < |s| && InHole(s[j], x) ensures rs[i].guest == s[j].guest {
      var k :| 0 <= k < |rs| && rs[k] == Range(s[j].guest, s[j].hpa, s[j].len);
      TilesOnce(rs, WINDOW, i, k, x);
    }
    if x < RAM {
      forall j | 0 <= j < |s| ensures !InHole(s[j], x) {
        assert Proper(s[j]);
      }
    }
  }

  // ---- the order of the list does not matter ----

  predicate SortedByHpa(s: seq<Hole>) {
    forall i, j :: 0 <= i < j < |s| ==> s[i].hpa <= s[j].hpa
  }

  predicate Overlap(g: Hole, h: Hole) {
    g.hpa < h.hpa + h.len && h.hpa < g.hpa + g.len
  }

  lemma {:induction false} InOrderApart(s: seq<Hole>, cursor: nat, i: nat, j: nat)
    requires InOrder(s, cursor) && i < j < |s|
    ensures s[i].hpa + s[i].len <= s[j].hpa
    decreases |s|
  {
    if i == 0 {
      InOrderAll(s[1..], s[0].hpa + s[0].len, j - 1);
    } else {
      InOrderApart(s[1..], s[0].hpa + s[0].len, i - 1, j - 1);
    }
  }

  lemma {:induction false} ApartInOrder(s: seq<Hole>, cursor: nat)
    requires SortedByHpa(s) && AllProper(s)
    requires s != [] ==> cursor <= s[0].hpa
    requires forall i, j :: 0 <= i < j < |s| ==> !Overlap(s[i], s[j])
    ensures InOrder(s, cursor)
    decreases |s|
  {
    if s != [] {
      assert Proper(s[0]);
      if |s| > 1 {
        assert Proper(s[1]) && !Overlap(s[0], s[1]);
      }
      ApartInOrder(s[1..], s[0].hpa + s[0].len);
    }
  }

  /** For sorted proper holes, being in order is the same as not overlapping. */
  lemma InOrderIff(s: seq<Hole>)
    requires SortedByHpa(s) && AllProper(s)
    ensures InOrder(s, 0) <==> forall i, j :: 0 <= i < j < |s| ==> !Overlap(s[i], s[j])
  {
    if InOrder(s, 0) {
      forall i, j | 0 <= i < j < |s| ensures !Overlap(s[i], s[j]) {
        InOrderApart(s, 0, i, j);
      }
    }
    if forall i, j :: 0 <= i < j < |s| ==> !Overlap(s[i], s[j]) {
      ApartInOrder(s, 0);
    }
  }

  predicate Increasing(s: seq<Hole>) {
    forall i, j :: 0 <= i < j < |s| ==> s[i].hpa < s[j].hpa
  }

  lemma SameFirst(s: seq<Hole>, t: seq<Hole>)
    requires multiset(s) == multiset(t) && SortedByHpa(t) && Increasing(s) && s != []
    ensures t != [] && s[0] == t[0]
    ensures multiset(s[1..]) == multiset(t[1..])
  {
    assert s[0] in multiset(t);
    assert t[0] in multiset(s);
    assert s == [s[0]] + s[1..] && t == [t[0]] + t[1..];
    assert multiset(s[1..]) == multiset(s) - multiset{s[0]};
  }

  /** An accepted arrangement is the only sorted arrangement of its holes. */
  lemma {:induction false} SortedOnce(s: seq<Hole>, t: seq<Hole>)
    requires multiset(s) == multiset(t) && SortedByHpa(t) && Increasing(s)
    ensures s == t
    decreases |s|
  {
    if s == [] {
      assert |multiset(t)| == 0;
    } else {
      SameFirst(s, t);
      SortedOnce(s[1..], t[1..]);
      assert s == [s[0]] + s[1..] && t == [t[0]] + t[1..];
    }
  }

  lemma OrderIndependent(s: seq<Hole>, t: seq<Hole>)
    requires SortedByHpa(s) && SortedByHpa(t) && multiset(s) == multiset(t)
    ensures Sweep(s, 0, []).Ok? <==> Sweep(t, 0, []).Ok?
    ensures Sweep(s, 0, []).Ok? ==> s == t
  {
    SweepIff(s, 0, []);
    SweepIff(t, 0, []);
    if Sweep(s, 0, []).Ok? {
      forall i, j | 0 <= i < j < |s| ensures s[i].hpa < s[j].hpa {
        InOrderApart(s, 0, i, j);
        assert Proper(s[i]);
      }
      SortedOnce(s, t);
    }
    if Sweep(t, 0, []).Ok? {
      forall i, j | 0 <= i < j < |t| ensures t[i].hpa < t[j].hpa {
        InOrderApart(t, 0, i, j);
        assert Proper(t[i]);
      }
      SortedOnce(t, s);
    }
  }

  /** A gap before every hole, and a tail after the last. */
  predicate Gappy(s: seq<Hole>, cursor: nat) {
    if s == [] then cursor < WINDOW else cursor < s[0].hpa && Gappy(s[1..], s[0].hpa + s[0].len)
  }

  lemma {:induction false} PiecesBound(s: seq<Hole>, cursor: nat)
    ensures Pieces(s, cursor) <= 2 * |s| + 1
    ensures Pieces(s, cursor) == 2 * |s| + 1 <==> Gappy(s, cursor)
  {
    if s != [] {
      PiecesBound(s[1..], s[0].hpa + s[0].len);
    }
  }

  /** Up to seven holes never run out of ranges; eight do exactly when they
      leave a gap at every turn. */
  lemma OutOfRangesIff(s: seq<Hole>)
    requires |s| <= HOLE_CAP
    ensures Pieces(s, 0) > RANGE_CAP <==> |s| == HOLE_CAP && Gappy(s, 0)
  {
    PiecesBound(s, 0);
  }

  // ---- the registry ----

  datatype Slot = Unused | Used(r: Range)
  datatype Outcome = Done | Failed(error: Error)

  function Ranges(slots: seq<Slot>, len: nat): (rs: seq<Range>)
    requires len <= |slots| && forall i :: 0 <= i < len ==> slots[i].Used?
    ensures |rs| == len && forall i :: 0 <= i < len ==> rs[i] == slots[i].r
  {
    seq(len, i requires 0 <= i < len => slots[i].r)
  }

  /** Does some range of `guest` hold `x`? */
  predicate Contains(rs: seq<Range>, guest: nat, x: nat) {
    exists i :: 0 <= i < |rs| && rs[i].guest == guest && Inside(rs[i], x)
  }

  /** The checks made after the sweep cannot fail. */
  lemma RechecksHold(s: seq<Hole>)
    requires Sweep(s, 0, []).Ok?
    ensures var rs := Sweep(s, 0, []).value;
            && Contains(rs, G0, 0) && Contains(rs, G0, RAM - 4096)
            && forall j :: 0 <= j < |s| ==> Contains(rs, s[j].guest, s[j].hpa) && !Contains(rs, G0, s[j].hpa)
  {
    hide Tiles, PartitionFrom, Sweep;
    var rs := Sweep(s, 0, []).value;
    EmptyTiles();
    SweepIff(s, 0, []);
    SweepPartition(s, 0, []);
    var a := Ownership(rs, s, 0);
    var b := Ownership(rs, s, RAM - 4096);
    forall j | 0 <= j < |s| ensures Contains(rs, s[j].guest, s[j].hpa) && !Contains(rs, G0, s[j].hpa) {
      assert Proper(s[j]);
      var c := Ownership(rs, s, s[j].hpa);
      assert InHole(s[j], s[j].hpa);
    }
  }

  lemma EmptyTiles()
    ensures Tiles([], 0)
  {}

  class RangeMap {
    const slots: array<Slot>
    var len: nat

    ghost predicate Valid()
      reads this, slots
    {
      && slots.Length == RANGE_CAP && len <= RANGE_CAP
      && (forall i :: 0 <= i < RANGE_CAP ==> (slots[i].Used? <==> i < len))
      && (forall i :: 0 <= i < len ==> slots[i].r.gpa + slots[i].r.len < U64)
    }

    ghost function Claimed(): (rs: seq<Range>)
      requires Valid()
      reads this, slots
    {
      Ranges(slots[..], len)
    }

    constructor ()
      ensures Valid() && Claimed() == [] && fresh(slots)
    {
      slots := new Slot[RANGE_CAP](_ => Unused);
      len := 0;
    }

    method Clear()
      requires Valid()
      modifies slots, this`len
      ensures Valid() && Claimed() == []
    {
      forall i | 0 <= i < slots.Length {
        slots[i] := Unused;
      }
      len := 0;
    }

    method ClaimRange(guest: nat, gpa: nat, n: nat) returns (o: Outcome)
      requires Valid()
      modifies slots, this`len
      ensures Valid()
      ensures match Claim(old(Claimed()), Range(guest, gpa, n))
              case Ok(rs) => o == Done && Claimed() == rs
              case Err(e) => o == Failed(e) && Claimed() == old(Claimed())
    {
      ghost var rs := Claimed();
      if guest == 0 {
        return Failed(InvalidGuest);
      }
      if n == 0 || gpa % 4096 != 0 || n % 4096 != 0 {
        return Failed(Invariant);
      }
      var end := gpa + n;
      if end >= U64 {
        return Failed(Invariant);
      }
      var i := 0;
      while i < slots.Length
        invariant 0 <= i <= slots.Length && Valid() && Claimed() == rs
        invariant forall j :: 0 <= j < i && j < |rs| ==> !(gpa < rs[j].gpa + rs[j].len && rs[j].gpa < end)
      {
        if slots[i].Used? && gpa < slots[i].r.gpa + slots[i].r.len && slots[i].r.gpa < end {
          assert gpa < rs[i].gpa + rs[i].len;
          return Failed(AlreadyOwned);
        }
        i := i + 1;
      }
      i := 0;
      while i < slots.Length
        invariant 0 <= i <= slots.Length && Valid() && Claimed() == rs
        invariant i <= len
      {
        if slots[i].Unused? {
          slots[i] := Used(Range(guest, gpa, n));
          len := len + 1;
          assert Claimed() == rs + [Range(guest, gpa, n)];
          return Done;
        }
        i := i + 1;
      }
      return Failed(Full);
    }

    method ContainsGpa(guest: nat, x: nat) returns (b: bool)
      requires Valid()
      ensures b <==> Contains(Claimed(), guest, x)
    {
      ghost var rs := Claimed();
      var i := 0;
      while i < slots.Length
        invariant 0 <= i <= slots.Length
        invariant forall j :: 0 <= j < i && j < |rs| ==> !(rs[j].guest == guest && Inside(rs[j], x))
      {
        if slots[i].Used? && slots[i].r.guest == guest && slots[i].r.gpa <= x < slots[i].r.gpa + slots[i].r.len {
          assert rs[i].guest == guest && Inside(rs[i], x);
          return true;
        }
        i := i + 1;
      }
      return false;
    }
  }

  method SwapDown(a: array<Hole>, j: nat)
    requires 0 < j < a.Length
    modifies a
    ensures a[..] == old(a[..])[j := old(a[j - 1])][j - 1 := old(a[j])]
    ensures multiset(a[..]) == old(multiset(a[..]))
  {
    a[j], a[j - 1] := a[j - 1], a[j];
  }

  /** Let element `i` sink to its place in the sorted part before it. */
  method Sink(a: array<Hole>, i: nat)
    requires i < a.Length && SortedByHpa(a[..i])
    modifies a
    ensures SortedByHpa(a[..i + 1]) && multiset(a[..]) == old(multiset(a[..]))
  {
    var j := i;
    while j > 0 && a[j].hpa < a[j - 1].hpa
      invariant 0 <= j <= i
      invariant forall p, q :: 0 <= p < q <= i && q != j ==> a[p].hpa <= a[q].hpa
      invariant multiset(a[..]) == old(multiset(a[..]))
    {
      SwapDown(a, j);
      j := j - 1;
    }
  }

  /** One hole: checked, the gap before it claimed for G0, then
      the hole for its guest. */
  method ClaimHole(rm: RangeMap, h: Hole, cursor: nat, ghost s: seq<Hole>) returns (o: Outcome)
    requires rm.Valid() && s != [] && s[0] == h && cursor <= WINDOW
    modifies rm.slots, rm`len
    ensures rm.Valid()
    ensures match o
            case Failed(e) => Sweep(s, cursor, old(rm.Claimed())) == Err(e)
            case Done =>
              && h.hpa + h.len <= WINDOW
              && Sweep(s, cursor, old(rm.Claimed())) == Sweep(s[1..], h.hpa + h.len, rm.Claimed())
  {
    hide Claim;
    if h.len == 0 || h.hpa % 4096 != 0 || h.len % 4096 != 0 {
      return Failed(Invariant);
    }
    if h.guest == 0 || h.guest == G0 {
      return Failed(InvalidGuest);
    }
    var end := h.hpa + h.len;
    if end >= U64 {
      return Failed(Invariant);
    }
    if end > WINDOW || h.hpa < cursor {
      return Failed(Invariant);
    }
    if h.hpa < RAM {
      return Failed(Invariant);
    }
    if h.hpa > cursor {
      o := rm.ClaimRange(G0, cursor, h.hpa - cursor);
      if o.Failed? {
        return o;
      }
    }
    o := rm.ClaimRange(h.guest, h.hpa, h.len);
  }

  /** Insertion sort by start address, in place. */
  method SortHoles(a: array<Hole>)
    modifies a
    ensures SortedByHpa(a[..]) && multiset(a[..]) == old(multiset(a[..]))
  {
    hide SortedByHpa;
    ShortIsSorted(a[..0]);
    var i := 0;
    while i < a.Length
      invariant 0 <= i <= a.Length && SortedByHpa(a[..i])
      invariant multiset(a[..]) == old(multiset(a[..]))
    {
      Sink(a, i);
      i := i + 1;
    }
    assert a[..i] == a[..];
  }

  lemma ShortIsSorted(s: seq<Hole>)
    requires |s| <= 1
    ensures SortedByHpa(s)
  {}

  method ClaimPrecise(rm: RangeMap, holes: seq<Hole>) returns (o: Outcome, ghost s: seq<Hole>)
    requires rm.Valid()
    modifies rm.slots, rm`len
    ensures rm.Valid()
    ensures |holes| > HOLE_CAP ==> o == Failed(Full)
    ensures |holes| <= HOLE_CAP ==>
              && SortedByHpa(s) && multiset(s) == multiset(holes)
              && match Sweep(s, 0, [])
                 case Ok(rs) => o == Done && rm.Claimed() == rs
                 case Err(e) => o == Failed(e)
  {
    hide SortedByHpa, Claim, Contains;
    s := [];
    rm.Clear();
    if |holes| > HOLE_CAP {
      return Failed(Full), s;
    }
    var a := new Hole[|holes|](i requires 0 <= i < |holes| => holes[i]);
    assert a[..] == holes;
    SortHoles(a);
    s := a[..];
    var cursor, k := 0, 0;
    while k < a.Length
      invariant 0 <= k <= a.Length && rm.Valid() && a[..] == s && 0 <= cursor <= WINDOW
      invariant Sweep(s, 0, []) == Sweep(s[k..], cursor, rm.Claimed())
    {
      assert s[k..][0] == a[k] && s[k..][1..] == s[k + 1..];
      o := ClaimHole(rm, a[k], cursor, s[k..]);
      if o.Failed? {
        return o, s;
      }
      cursor := a[k].hpa + a[k].len;
      k := k + 1;
    }
    assert s[k..] == [];
    if cursor < WINDOW {
      o := rm.ClaimRange(G0, cursor, WINDOW - cursor);
      if o.Failed? {
        return o, s;
      }
    }
    RechecksHold(s);
    o := Recheck(rm, a[..]);
  }

  /** Look the claims up again, hole by hole. */
  method Recheck(rm: RangeMap, s: seq<Hole>) returns (o: Outcome)
    requires rm.Valid()
    ensures o == Done <==>
            && Contains(rm.Claimed(), G0, 0) && Contains(rm.Claimed(), G0, RAM - 4096)
            && forall j :: 0 <= j < |s| ==>
                 Contains(rm.Claimed(), s[j].guest, s[j].hpa) && !Contains(rm.Claimed(), G0, s[j].hpa)
  {
    hide Contains;
    var a := rm.ContainsGpa(G0, 0);
    var b := rm.ContainsGpa(G0, RAM - 4096);
    if !a || !b {
      return Failed(Invariant);
    }
    var j := 0;
    while j < |s|
      invariant 0 <= j <= |s|
      invariant forall i :: 0 <= i < j ==>
                  Contains(rm.Claimed(), s[i].guest, s[i].hpa) && !Contains(rm.Claimed(), G0, s[i].hpa)
    {
      a := rm.ContainsGpa(s[j].guest, s[j].hpa);
      b := rm.ContainsGpa(G0, s[j].hpa);
      if !a || b {
        return Failed(Invariant);
      }
      j := j + 1;
    }
    return Done;
  }
}
