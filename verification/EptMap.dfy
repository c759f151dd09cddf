/** The exclusive-ownership registry: at most one guest page per host frame
    and one frame per guest page, kept in a fixed table of slots. */
module EptMap {
  import opened Common
  import opened EptError

  const MAP_CAP: nat := 512

  datatype Perms = Perms(read: bool, write: bool, execute: bool)
  datatype Mapping = Mapping(guest: nat, gpa: nat, frame: nat, perms: Perms)
  datatype Slot = Empty | Taken(m: Mapping)

  /** A guest page, and what it is mapped to. */
  datatype Key = Key(guest: nat, gpa: nat)
  datatype Entry = Entry(frame: nat, perms: Perms)
  type Table = map<Key, Entry>

  function PageOf(gpa: nat): (p: nat)
    ensures p % 4096 == 0 && p <= gpa < p + 4096
  {
    gpa - gpa % 4096
  }

  function KeyOf(m: Mapping): Key {
    Key(m.guest, m.gpa)
  }

  // ---- the table the slots stand for ----

  predicate Holds(s: seq<Slot>, i: nat, k: Key) {
    i < |s| && s[i].Taken? && KeyOf(s[i].m) == k
  }

  /** No two slots name the same frame or the same guest page. */
  predicate Unique(s: seq<Slot>) {
    forall i, j :: 0 <= i < j < |s| && s[i].Taken? && s[j].Taken? ==>
      s[i].m.frame != s[j].m.frame && KeyOf(s[i].m) != KeyOf(s[j].m)
  }

  function Count(s: seq<Slot>): (n: nat)
    ensures n <= |s|
  {
    if s == [] then 0 else Count(s[..|s| - 1]) + if s[|s| - 1].Taken? then 1 else 0
  }

  ghost function View(s: seq<Slot>): (t: Table) {
    if s == [] then map[]
    else
      var t := View(s[..|s| - 1]);
      if s[|s| - 1].Taken? then t[KeyOf(s[|s| - 1].m) := Entry(s[|s| - 1].m.frame, s[|s| - 1].m.perms)] else t
  }

  /** One owner per frame: the table is an injective partial map. */
  ghost predicate Exclusive(t: Table) {
    forall k, l :: k in t && l in t && k != l ==> t[k].frame != t[l].frame
  }

  lemma {:induction false} ViewAt(s: seq<Slot>, i: nat)
    requires Unique(s) && i < |s| && s[i].Taken?
    ensures KeyOf(s[i].m) in View(s) && View(s)[KeyOf(s[i].m)] == Entry(s[i].m.frame, s[i].m.perms)
  {
    if i < |s| - 1 {
      ViewAt(s[..|s| - 1], i);
    }
  }

  lemma {:induction false} ViewFrom(s: seq<Slot>, k: Key) returns (i: nat)
    requires k in View(s)
    ensures Holds(s, i, k)
  {
    var last := s[|s| - 1];
    if last.Taken? && KeyOf(last.m) == k {
      i := |s| - 1;
    } else {
      i := ViewFrom(s[..|s| - 1], k);
    }
  }

  /** Slots without duplicates give an injective map with as many entries as
      there are slots in use. */
  lemma {:induction false} ViewExclusive(s: seq<Slot>)
    requires Unique(s)
    ensures Exclusive(View(s)) && |View(s)| == Count(s)
  {
    if s != [] {
      var r := s[..|s| - 1];
      ViewExclusive(r);
      var last := s[|s| - 1];
      if last.Taken? {
        if KeyOf(last.m) in View(r) {
          var i := ViewFrom(r, KeyOf(last.m));
        }
        forall k | k in View(r) ensures View(r)[k].frame != last.m.frame {
          var i := ViewFrom(r, k);
          ViewAt(r, i);
        }
      }
    }
  }

  /** Filling an empty slot with a fresh frame and a fresh page. */
  lemma {:induction false} ViewFill(s: seq<Slot>, i: nat, m: Mapping)
    requires i < |s| && s[i].Empty?
    requires forall j :: 0 <= j < |s| && s[j].Taken? ==> s[j].m.frame != m.frame && KeyOf(s[j].m) != KeyOf(m)
    ensures View(s[i := Taken(m)]) == View(s)[KeyOf(m) := Entry(m.frame, m.perms)]
    ensures Count(s[i := Taken(m)]) == Count(s) + 1
  {
    var s' := s[i := Taken(m)];
    if i == |s| - 1 {
      assert s'[..i] == s[..i];
    } else {
      ViewFill(s[..|s| - 1], i, m);
      assert s'[..|s| - 1] == s[..|s| - 1][i := Taken(m)];
    }
  }

  lemma {:induction false} ViewClear(s: seq<Slot>, i: nat)
    requires Unique(s) && i < |s| && s[i].Taken?
    ensures View(s[i := Empty]) == View(s) - {KeyOf(s[i].m)}
    ensures Count(s[i := Empty]) == Count(s) - 1
  {
    var s' := s[i := Empty];
    if i == |s| - 1 {
      assert s'[..i] == s[..i];
      if KeyOf(s[i].m) in View(s[..i]) {
        var j := ViewFrom(s[..i], KeyOf(s[i].m));
      }
    } else {
      ViewClear(s[..|s| - 1], i);
      assert s'[..|s| - 1] == s[..|s| - 1][i := Empty];
    }
  }

  // ---- what the operations mean on the table ----

  ghost predicate Owned(t: Table, frame: nat) {
    exists k :: k in t && t[k].frame == frame
  }

  ghost function Mapped(t: Table, key: Key, frame: nat, perms: Perms): (r: (Table, Result<nat>)) {
    if key.guest == 0 then (t, Err(InvalidGuest))
    else if Owned(t, frame) || key in t then (t, Err(AlreadyOwned))
    else if |t| >= MAP_CAP then (t, Err(Full))
    else (t[key := Entry(frame, perms)], Ok(frame))
  }

  ghost function Unmapped(t: Table, key: Key): (r: (Table, Result<nat>)) {
    if key in t then (t - {key}, Ok(t[key].frame)) else (t, Err(NotMapped))
  }

  /** A page moves from one guest to another, or nothing happens. */
  ghost function Moved(t: Table, src: Key, dst: Key, perms: Perms): (r: (Table, Result<nat>)) {
    if src.guest == 0 || dst.guest == 0 || src.guest == dst.guest then (t, Err(InvalidGuest))
    else if dst in t then (t, Err(AlreadyOwned))
    else if src !in t then (t, Err(NotMapped))
    else ((t - {src})[dst := Entry(t[src].frame, perms)], Ok(t[src].frame))
  }

  /** Once the source page is out, the destination cannot be refused: the
      frame is free, the page is free, and a slot is free. */
  lemma TransferIsUnmapThenMap(t: Table, src: Key, dst: Key, perms: Perms)
    requires Exclusive(t) && |t| <= MAP_CAP
    requires src.guest != 0 && dst.guest != 0 && src.guest != dst.guest && dst !in t && src in t
    ensures Mapped(Unmapped(t, src).0, dst, t[src].frame, perms) == Moved(t, src, dst, perms)
  {
    var t1 := t - {src};
    assert t.Keys == t1.Keys + {src};
    assert |t1.Keys| == |t.Keys| - 1;
    assert !Owned(t1, t[src].frame);
  }

  /** Frames in use before and after a transfer are the same frames. */
  lemma TransferKeepsFrames(t: Table, src: Key, dst: Key, perms: Perms, frame: nat)
    ensures Owned(Moved(t, src, dst, perms).0, frame) <==> Owned(t, frame)
  {
    var t' := Moved(t, src, dst, perms).0;
    if t' != t {
      if Owned(t, frame) {
        var k :| k in t && t[k].frame == frame;
        assert (if k == src then dst else k) in t' && t'[if k == src then dst else k].frame == frame;
      }
      if Owned(t', frame) {
        var k :| k in t' && t'[k].frame == frame;
        assert (if k == dst then src else k) in t && t[if k == dst then src else k].frame == frame;
      }
    }
  }

  datatype Op =
    | MapOp(key: Key, frame: nat, perms: Perms)
    | UnmapOp(key: Key)
    | TransferOp(src: Key, dst: Key, perms: Perms)

  ghost function Apply(t: Table, op: Op): (t': Table) {
    match op
    case MapOp(k, f, p) => Mapped(t, k, f, p).0
    case UnmapOp(k) => Unmapped(t, k).0
    case TransferOp(a, b, p) => Moved(t, a, b, p).0
  }

  ghost function Run(t: Table, ops: seq<Op>): (t': Table)
    decreases |ops|
  {
    if ops == [] then t else Run(Apply(t, ops[0]), ops[1..])
  }

  lemma UnmapExclusive(t: Table, k: Key)
    requires Exclusive(t) && |t| <= MAP_CAP
    ensures Exclusive(Unmapped(t, k).0) && |Unmapped(t, k).0| <= MAP_CAP
  {
    if k in t {
      assert t.Keys == Unmapped(t, k).0.Keys + {k};
    }
  }

  lemma MapExclusive(t: Table, k: Key, frame: nat, perms: Perms)
    requires Exclusive(t) && |t| <= MAP_CAP
    ensures Exclusive(Mapped(t, k, frame, perms).0) && |Mapped(t, k, frame, perms).0| <= MAP_CAP
  {}

  lemma ApplyExclusive(t: Table, op: Op)
    requires Exclusive(t) && |t| <= MAP_CAP
    ensures Exclusive(Apply(t, op)) && |Apply(t, op)| <= MAP_CAP
  {
    hide Exclusive, Mapped, Unmapped;
    match op
    case MapOp(k, f, p) => MapExclusive(t, k, f, p);
    case UnmapOp(k) => UnmapExclusive(t, k);
    case TransferOp(a, b, p) =>
      if Apply(t, op) != t {
        TransferIsUnmapThenMap(t, a, b, p);
        UnmapExclusive(t, a);
        MapExclusive(Unmapped(t, a).0, b, t[a].frame, p);
      }
  }

  /** Over any run no frame ever has two owners. */
  lemma {:induction false} RunExclusive(t: Table, ops: seq<Op>)
    requires Exclusive(t) && |t| <= MAP_CAP
    ensures Exclusive(Run(t, ops)) && |Run(t, ops)| <= MAP_CAP
    decreases |ops|
  {
    if ops != [] {
      ApplyExclusive(t, ops[0]);
      RunExclusive(Apply(t, ops[0]), ops[1..]);
    }
  }

  // ---- the registry ----

  class Registry {
    const slots: array<Slot>
    var len: nat

    ghost predicate Valid()
      reads this, slots
    {
      slots.Length == MAP_CAP && Unique(slots[..]) && len == Count(slots[..])
    }

    ghost function Contents(): (t: Table)
      reads slots
    {
      View(slots[..])
    }

    constructor ()
      ensures Valid() && Contents() == map[] && fresh(slots)
    {
      slots := new Slot[MAP_CAP](_ => Empty);
      len := 0;
      new;
      AllEmpty(slots[..]);
    }

    method Map(guest: nat, gpa: nat, frame: nat, perms: Perms) returns (r: Result<nat>)
      requires Valid()
      modifies slots, this`len
      ensures Valid()
      ensures (Contents(), r) == Mapped(old(Contents()), Key(guest, PageOf(gpa)), frame, perms)
    {
      hide Unique, View, Count;
      ghost var s, t := slots[..], Contents();
      ViewExclusive(s);
      if guest == 0 {
        return Err(InvalidGuest);
      }
      var key := Key(guest, PageOf(gpa));
      var i := 0;
      while i < slots.Length
        invariant 0 <= i <= slots.Length && slots[..] == s && len == old(len)
        invariant forall j :: 0 <= j < i && s[j].Taken? ==> s[j].m.frame != frame && KeyOf(s[j].m) != key
      {
        if slots[i].Taken? && (slots[i].m.frame == frame || KeyOf(slots[i].m) == key) {
          ViewAt(s, i);
          return Err(AlreadyOwned);
        }
        i := i + 1;
      }
      NotOwned(s, key, frame);
      i := 0;
      while i < slots.Length
        invariant 0 <= i <= slots.Length && slots[..] == s && len == old(len)
        invariant forall j :: 0 <= j < i ==> s[j].Taken?
      {
        if slots[i].Empty? {
          var m := Mapping(guest, PageOf(gpa), frame, perms);
          ViewFill(s, i, m);
          NotFull(s, i);
          FillUnique(s, i, m);
          slots[i] := Taken(m);
          len := len + 1;
          assert slots[..] == s[i := Taken(m)];
          return Ok(frame);
        }
        i := i + 1;
      }
      AllTaken(s);
      return Err(Full);
    }

    method Unmap(guest: nat, gpa: nat) returns (r: Result<nat>)
      requires Valid()
      modifies slots, this`len
      ensures Valid()
      ensures (Contents(), r) == Unmapped(old(Contents()), Key(guest, PageOf(gpa)))
    {
      hide Unique, View, Count;
      ghost var s := slots[..];
      var key := Key(guest, PageOf(gpa));
      var i := 0;
      while i < slots.Length
        invariant 0 <= i <= slots.Length && slots[..] == s && len == old(len)
        invariant forall j :: 0 <= j < i ==> !Holds(s, j, key)
      {
        if slots[i].Taken? && KeyOf(slots[i].m) == key {
          var frame := slots[i].m.frame;
          ViewAt(s, i);
          ViewClear(s, i);
          ClearUnique(s, i);
          slots[i] := Empty;
          len := len - 1;
          assert slots[..] == s[i := Empty];
          return Ok(frame);
        }
        i := i + 1;
      }
      if key in View(s) {
        var j := ViewFrom(s, key);
      }
      return Err(NotMapped);
    }

    method OwnerOf(frame: nat) returns (r: Option<nat>)
      requires Valid()
      ensures r.Some? <==> Owned(Contents(), frame)
      ensures r.Some? ==> exists k :: k in Contents() && Contents()[k].frame == frame && k.guest == r.value
    {
      hide Unique, View, Count;
      ghost var s := slots[..];
      var i := 0;
      while i < slots.Length
        invariant 0 <= i <= slots.Length
        invariant forall j :: 0 <= j < i && s[j].Taken? ==> s[j].m.frame != frame
      {
        if slots[i].Taken? && slots[i].m.frame == frame {
          ViewAt(s, i);
          return Some(slots[i].m.guest);
        }
        i := i + 1;
      }
      forall k | k in View(s) ensures View(s)[k].frame != frame {
        var j := ViewFrom(s, k);
        ViewAt(s, j);
      }
      return None;
    }

    method OwnerOfGpa(guest: nat, gpa: nat) returns (r: Option<nat>)
      requires Valid()
      ensures r == var k := Key(guest, PageOf(gpa)); if k in Contents() then Some(Contents()[k].frame) else None
    {
      hide Unique, View, Count;
      ghost var s := slots[..];
      var key := Key(guest, PageOf(gpa));
      var i := 0;
      while i < slots.Length
        invariant 0 <= i <= slots.Length
        invariant forall j :: 0 <= j < i ==> !Holds(s, j, key)
      {
        if slots[i].Taken? && KeyOf(slots[i].m) == key {
          ViewAt(s, i);
          return Some(slots[i].m.frame);
        }
        i := i + 1;
      }
      if key in View(s) {
        var j := ViewFrom(s, key);
      }
      return None;
    }

    /** The runtime self-check, on a table in any state. */
    method CheckInvariants() returns (ok: bool)
      ensures ok <==> Unique(slots[..]) && len == Count(slots[..])
    {
      ghost var s := slots[..];
      var n, i := 0, 0;
      while i < slots.Length
        invariant 0 <= i <= slots.Length && n == Count(s[..i])
        invariant forall a, b :: 0 <= a < i && 0 <= b < |s| && a != b && s[a].Taken? && s[b].Taken? ==>
                    s[a].m.frame != s[b].m.frame && KeyOf(s[a].m) != KeyOf(s[b].m)
      {
        assert s[..i + 1][..i] == s[..i];
        if slots[i].Taken? {
          n := n + 1;
          var j := 0;
          while j < slots.Length
            invariant 0 <= j <= slots.Length
            invariant forall b :: 0 <= b < j && b != i && s[b].Taken? ==>
                        s[i].m.frame != s[b].m.frame && KeyOf(s[i].m) != KeyOf(s[b].m)
          {
            if i != j && slots[j].Taken? && (slots[i].m.frame == slots[j].m.frame || KeyOf(slots[i].m) == KeyOf(slots[j].m)) {
              assert i < j || j < i;
              return false;
            }
            j := j + 1;
          }
        }
        i := i + 1;
      }
      assert s[..i] == s;
      return n == len;
    }

    /** Hand a page from one guest to another: out at the source, in at the
        destination. Putting the page back after a failed second half is
        code that never runs. */
    method TransferPage(srcGuest: nat, srcGpa: nat, dstGuest: nat, dstGpa: nat, perms: Perms) returns (r: Result<nat>)
      requires Valid()
      modifies slots, this`len
      ensures Valid()
      ensures (Contents(), r) == Moved(old(Contents()), Key(srcGuest, PageOf(srcGpa)), Key(dstGuest, PageOf(dstGpa)), perms)
    {
      hide Unique, View, Count;
      if srcGuest == 0 || dstGuest == 0 || srcGuest == dstGuest {
        return Err(InvalidGuest);
      }
      ghost var t := Contents();
      ViewExclusive(slots[..]);
      ViewBounded(slots[..]);
      var there := OwnerOfGpa(dstGuest, PageOf(dstGpa));
      if there.Some? {
        return Err(AlreadyOwned);
      }
      r := Unmap(srcGuest, PageOf(srcGpa));
      if r.Err? {
        return;
      }
      TransferIsUnmapThenMap(t, Key(srcGuest, PageOf(srcGpa)), Key(dstGuest, PageOf(dstGpa)), perms);
      r := Map(dstGuest, PageOf(dstGpa), r.value, perms);
      if r.Err? {
        assert false;
      }
    }
  }

  lemma {:induction false} AllEmpty(s: seq<Slot>)
    requires forall i :: 0 <= i < |s| ==> s[i].Empty?
    ensures View(s) == map[] && Count(s) == 0
  {
    if s != [] {
      AllEmpty(s[..|s| - 1]);
    }
  }

  lemma {:induction false} AllTaken(s: seq<Slot>)
    requires forall i :: 0 <= i < |s| ==> s[i].Taken?
    ensures Count(s) == |s|
  {
    if s != [] {
      AllTaken(s[..|s| - 1]);
    }
  }

  lemma {:induction false} NotFull(s: seq<Slot>, i: nat)
    requires i < |s| && s[i].Empty?
    ensures Count(s) < |s|
  {
    if i < |s| - 1 {
      NotFull(s[..|s| - 1], i);
    }
  }

  lemma NotOwned(s: seq<Slot>, key: Key, frame: nat)
    requires Unique(s)
    requires forall j :: 0 <= j < |s| && s[j].Taken? ==> s[j].m.frame != frame && KeyOf(s[j].m) != key
    ensures key !in View(s) && !Owned(View(s), frame)
  {
    if key in View(s) {
      var i := ViewFrom(s, key);
    }
    forall k | k in View(s) ensures View(s)[k].frame != frame {
      var i := ViewFrom(s, k);
      ViewAt(s, i);
    }
  }

  lemma ClearUnique(s: seq<Slot>, i: nat)
    requires Unique(s) && i < |s|
    ensures Unique(s[i := Empty])
  {}

  lemma ViewBounded(s: seq<Slot>)
    requires Unique(s)
    ensures |View(s)| <= |s|
  {
    ViewExclusive(s);
  }

  lemma FillUnique(s: seq<Slot>, i: nat, m: Mapping)
    requires Unique(s) && i < |s| && s[i].Empty?
    requires forall j :: 0 <= j < |s| && s[j].Taken? ==> s[j].m.frame != m.frame && KeyOf(s[j].m) != KeyOf(m)
    ensures Unique(s[i := Taken(m)])
  {}
}
