/** The pair of 8259 interrupt controllers and the latch that keeps a level
    virtio line from starving the timer. */
module Pic {
  import opened Common

  /** Registers of one controller. `init` counts the initialisation words
      still expected. */
  datatype Regs = Regs(imr: bv8, irr: bv8, isr: bv8, vector: nat, init: nat,
                       expectIcw4: bool, ready: bool, readIsr: bool, aeoi: bool)

  const IDLE: Regs := Regs(0xFF, 0, 0, 8, 0, false, false, false, false)

  /** Both controllers, the two timer preferences, and the yield latch with
      its count of virtio takes. */
  datatype Chip = Chip(master: Regs, slave: Regs, hold: bool, once: bool, owed: bool, since: nat)

  const RESET: Chip := Chip(IDLE, IDLE, false, false, false, 0)

  const VIRTIO: nat := 11
  const CASCADE: bv8 := 4

  function Line(i: nat): (b: bv8)
    requires i < 8
    ensures b != 0
  {
    if i == 0 then 1 else if i == 1 then 2 else if i == 2 then 4 else if i == 3 then 8
    else if i == 4 then 16 else if i == 5 then 32 else if i == 6 then 64 else 128
  }

  /** Number of the lowest line set, the 8259's highest priority. */
  function Lowest(b: bv8): (i: nat)
    requires b != 0
    ensures i < 8 && b & Line(i) != 0
    ensures forall j :: 0 <= j < i ==> b & Line(j) == 0
  {
    if b & 1 != 0 then 0 else if b & 2 != 0 then 1 else if b & 4 != 0 then 2 else if b & 8 != 0 then 3
    else if b & 16 != 0 then 4 else if b & 32 != 0 then 5 else if b & 64 != 0 then 6 else 7
  }

  function Set(b: bv8, m: bv8): bv8 {
    b | m
  }

  function Clear(b: bv8, m: bv8): bv8 {
    b & !m
  }

  predicate Has(b: bv8, m: bv8) {
    b & m != 0
  }

  // ---- raising and lowering lines ----

  /** An unmasked request. */
  predicate Waiting(p: Regs) {
    p.irr & !p.imr != 0
  }

  function Raise(c: Chip, irq: nat): (r: Chip)
    requires irq < 16
  {
    var up := if irq < 8 then c.(master := c.master.(irr := Set(c.master.irr, Line(irq))))
              else c.(slave := c.slave.(irr := Set(c.slave.irr, Line(irq - 8))), master := c.master.(irr := Set(c.master.irr, CASCADE)));
    if irq == VIRTIO then
      up.(slave := up.slave.(imr := Clear(up.slave.imr, Line(3))), master := up.master.(imr := Clear(up.master.imr, CASCADE)))
    else up
  }

  function Lower(c: Chip, irq: nat): (r: Chip)
    requires irq < 16
  {
    if irq < 8 then c.(master := c.master.(irr := Clear(c.master.irr, Line(irq))))
    else
      var down := c.(slave := c.slave.(irr := Clear(c.slave.irr, Line(irq - 8))));
      if !Waiting(down.slave) then down.(master := down.master.(irr := Clear(down.master.irr, CASCADE))) else down
  }

  // ---- which line is next ----

  function Requests(p: Regs): bv8 {
    p.irr & !p.imr & !p.isr
  }

  function SlaveLine(c: Chip): (r: Option<nat>)
    ensures r.Some? ==> 8 <= r.value < 16
  {
    if Has(Requests(c.master), CASCADE) && c.slave.ready && c.slave.vector >= 16 && Requests(c.slave) != 0
    then Some(8 + Lowest(Requests(c.slave))) else None
  }

  /** The timer is asking and has been given preference. */
  predicate TimerDue(c: Chip) {
    (c.hold || c.once) && Has(Requests(c.master), 1)
  }

  function Pending(c: Chip): (r: Option<nat>)
    ensures r.Some? ==> r.value < 16
  {
    var req := Requests(c.master);
    if !c.master.ready || c.master.vector < 16 || req == 0 then None
    else if SlaveLine(c) == Some(VIRTIO) && TimerDue(c) && c.owed then Some(0)
    else if SlaveLine(c).Some? then SlaveLine(c)
    else if TimerDue(c) then Some(0)
    else
      var dev := Clear(Clear(req, 1), CASCADE);
      if dev != 0 then Some(Lowest(dev))
      else if Lowest(req) == 2 then None else Some(Lowest(req))
  }

  /** The bookkeeping of a take: a timer take settles the debt, a virtio take
      runs one up (at once before the boot media is mounted, at the third
      after). */
  function Settle(c: Chip, irq: nat, mounted: bool): (r: Chip) {
    if irq == 0 then c.(once := false, owed := false, since := 0)
    else if irq == VIRTIO then
      if mounted then c.(owed := c.since + 1 >= 3, since := if c.since + 1 >= 3 then 0 else c.since + 1)
      else c.(owed := true)
    else c
  }

  /** Acknowledge `irq`: request to service, except the level virtio line,
      whose request stays up. */
  function Acknowledge(c: Chip, irq: nat): (r: Chip)
    requires irq < 16
  {
    if irq < 8 then
      c.(master := c.master.(irr := Clear(c.master.irr, Line(irq)),
                             isr := if c.master.aeoi then c.master.isr else Set(c.master.isr, Line(irq))))
    else
      var s := c.slave.(irr := if irq == VIRTIO then c.slave.irr else Clear(c.slave.irr, Line(irq - 8)),
                        isr := if c.slave.aeoi then c.slave.isr else Set(c.slave.isr, Line(irq - 8)));
      var m1 := if c.slave.aeoi then c.master else c.master.(isr := Set(c.master.isr, CASCADE));
      var m2 := if !Waiting(s) then m1.(irr := Clear(m1.irr, CASCADE)) else m1;
      c.(slave := s, master := m2)
  }

  function Take(c: Chip, mounted: bool): (r: (Chip, Option<nat>)) {
    match Pending(c)
    case None => (c, None)
    case Some(irq) => (Acknowledge(Settle(c, irq, mounted), irq), Some(irq))
  }

  // ---- the command and data ports ----

  predicate IsEoi(val: bv8) {
    val & 0x18 == 0 && val & 0x20 != 0
  }

  /** The level a specific command names. */
  function Level(val: bv8): (i: nat)
    ensures i < 8
  {
    (val & 7) as nat
  }

  /** The levels in service after an end-of-interrupt command. */
  function Ended(isr: bv8, val: bv8): bv8 {
    if !IsEoi(val) || isr == 0 then isr
    else if Has(val, 0x40) then Clear(isr, Line(Level(val)))
    else Clear(isr, Line(Lowest(isr)))
  }

  function Command(p: Regs, val: bv8): (r: Regs) {
    if Has(val, 0x10) then Regs(0, 0, 0, p.vector, 1, Has(val, 1), false, false, false)
    else if Has(val, 0x08) then p.(readIsr := val & 3 == 3)
    else p.(isr := Ended(p.isr, val))
  }

  function Number(val: bv8): (n: nat)
    ensures n < 256
  {
    val as nat
  }

  function Data(p: Regs, val: bv8): (r: Regs) {
    if p.init == 1 then p.(vector := Number(val), init := 2)
    else if p.init == 2 then
      if p.expectIcw4 then p.(init := 3) else p.(init := 0, ready := p.vector >= 16)
    else if p.init == 3 then p.(init := 0, ready := p.vector >= 16, aeoi := Has(val, 2))
    else p.(imr := val)
  }

  lemma CascadeLine()
    ensures CASCADE == Line(2)
  {}

  lemma SetBits(b: bv8, i: nat, j: nat)
    requires i < 8 && j < 8
    ensures Has(Set(b, Line(i)), Line(j)) <==> Has(b, Line(j)) || i == j
    ensures Has(Clear(b, Line(i)), Line(j)) <==> Has(b, Line(j)) && i != j
  {}

  /** A line raised and lowered again, not requested before and not the virtio
      line, leaves the chip as it was; for a slave line exactly when the
      cascade was up for the requests then waiting, and only then. */
  lemma RaiseLowerIff(c: Chip, irq: nat)
    requires irq < 16 && irq != VIRTIO
    requires !(if irq < 8 then Has(c.master.irr, Line(irq)) else Has(c.slave.irr, Line(irq - 8)))
    ensures Lower(Raise(c, irq), irq) == c <==> irq < 8 || (Has(c.master.irr, CASCADE) <==> Waiting(c.slave))
  {
    hide Raise, Lower, Set, Clear, Has, Line, Waiting;
    if irq < 8 {
      RaiseLowerMaster(c, irq);
    } else {
      RaiseLowerSlave(c, irq);
    }
  }

  lemma RaiseLowerMaster(c: Chip, irq: nat)
    requires irq < 8 && !Has(c.master.irr, Line(irq))
    ensures Lower(Raise(c, irq), irq) == c
  {
    hide Set, Clear, Has, Line;
    SetClear(c.master.irr, irq);
  }

  /** The master's requests after a slave line has been up and down. */
  function CascadeAfter(c: Chip): bv8 {
    if Waiting(c.slave) then Set(c.master.irr, CASCADE) else Clear(Set(c.master.irr, CASCADE), CASCADE)
  }

  lemma RaiseLowerSlave(c: Chip, irq: nat)
    requires 8 <= irq < 16 && irq != VIRTIO && !Has(c.slave.irr, Line(irq - 8))
    ensures Lower(Raise(c, irq), irq) == c <==> (Has(c.master.irr, CASCADE) <==> Waiting(c.slave))
  {
    hide Raise, Lower, CascadeAfter, Has, Waiting, Line;
    SlaveUpDown(c, irq);
    CascadeSame(c);
  }

  lemma SlaveUpDown(c: Chip, irq: nat)
    requires 8 <= irq < 16 && irq != VIRTIO && !Has(c.slave.irr, Line(irq - 8))
    ensures Lower(Raise(c, irq), irq) == c.(master := c.master.(irr := CascadeAfter(c)))
  {
    hide Set, Clear, Has, Line, Waiting;
    SetClear(c.slave.irr, irq - 8);
    assert c.slave.(irr := c.slave.irr) == c.slave;
  }

  lemma CascadeSame(c: Chip)
    ensures CascadeAfter(c) == c.master.irr <==> (Has(c.master.irr, CASCADE) <==> Waiting(c.slave))
  {
    hide Set, Clear, Has, Waiting;
    CascadeKept(c.master.irr);
  }

  lemma CascadeKept(b: bv8)
    ensures Has(b, CASCADE) ==> Set(b, CASCADE) == b
    ensures !Has(b, CASCADE) ==> Clear(Set(b, CASCADE), CASCADE) == b && Set(b, CASCADE) != b
    ensures Has(b, CASCADE) ==> Clear(Set(b, CASCADE), CASCADE) != b
  {}

  /** The initialisation sequence: afterwards nothing is masked, requested or
      in service, and the controller is ready iff its vectors clear the
      processor's exceptions. A fourth word is taken iff the first asked. */
  lemma Initialised(p: Regs, icw1: bv8, icw2: bv8, icw3: bv8, icw4: bv8)
    requires icw1 & 0x10 != 0
    ensures var three := Data(Data(Command(p, icw1), icw2), icw3);
            var done := if icw1 & 1 != 0 then Data(three, icw4) else three;
            done == Regs(0, 0, 0, Number(icw2), 0, icw1 & 1 != 0, Number(icw2) >= 16, false, icw1 & 1 != 0 && icw4 & 2 != 0)
  {}

  // ---- runs ----

  datatype Event =
    | Raised(irq: nat)
    | Lowered(irq: nat)
    | Held(on: bool)
    | Once
    | Commanded(toSlave: bool, val: bv8)
    | Written(toSlave: bool, val: bv8)
    | Took(mounted: bool)

  predicate Proper(e: Event) {
    match e
    case Raised(irq) => irq < 16
    case Lowered(irq) => irq < 16
    case _ => true
  }

  function Step(c: Chip, e: Event): (r: (Chip, Option<nat>))
    requires Proper(e)
  {
    match e
    case Raised(irq) => (Raise(c, irq), None)
    case Lowered(irq) => (Lower(c, irq), None)
    case Held(on) => (c.(hold := on), None)
    case Once => (c.(once := true), None)
    case Commanded(toSlave, val) =>
      (if toSlave then c.(slave := Command(c.slave, val)) else c.(master := Command(c.master, val)), None)
    case Written(toSlave, val) =>
      (if toSlave then c.(slave := Data(c.slave, val)) else c.(master := Data(c.master, val)), None)
    case Took(mounted) => Take(c, mounted)
  }

  /** A delivered line was requested, unmasked and not already in service,
      and the cascade line itself is never delivered. */
  lemma DeliversOnlyRequests(c: Chip, mounted: bool)
    ensures var (after, got) := Take(c, mounted);
            got.Some? ==>
              if got.value < 8 then got.value != 2 && Has(Requests(c.master), Line(got.value))
              else Has(Requests(c.slave), Line(got.value - 8)) && Has(Requests(c.master), CASCADE)
    ensures var (after, got) := Take(c, mounted); got.None? ==> after == c
  {
    var req := Requests(c.master);
    if Pending(c).Some? && SlaveLine(c).None? && !TimerDue(c) && Clear(Clear(req, 1), CASCADE) != 0 {
      LowestOfRest(req);
    }
  }

  lemma LowestOfRest(req: bv8)
    requires Clear(Clear(req, 1), CASCADE) != 0
    ensures var l := Lowest(Clear(Clear(req, 1), CASCADE)); l != 0 && l != 2 && req & Line(l) != 0
  {
    var l := Lowest(Clear(Clear(req, 1), CASCADE));
    assert Clear(Clear(req, 1), CASCADE) & Line(l) != 0;
    assert Clear(Clear(req, 1), CASCADE) & 1 == 0 && Clear(Clear(req, 1), CASCADE) & 4 == 0;
  }

  /** The command that ends level `i` and no other. */
  function Specific(i: nat): bv8
    requires i < 8
  {
    if i == 0 then 0x60 else if i == 1 then 0x61 else if i == 2 then 0x62 else if i == 3 then 0x63
    else if i == 4 then 0x64 else if i == 5 then 0x65 else if i == 6 then 0x66 else 0x67
  }

  lemma SpecificEnds(isr: bv8, i: nat)
    requires i < 8
    ensures !Has(Specific(i), 0x10) && !Has(Specific(i), 0x08)
    ensures Ended(isr, Specific(i)) == Clear(isr, Line(i))
  {}

  /** Setting a bit that was clear, then clearing it, changes nothing. */
  lemma SetClear(b: bv8, i: nat)
    requires i < 8 && !Has(b, Line(i))
    ensures Clear(Set(b, Line(i)), Line(i)) == b
  {}

  lemma NotInService(p: Regs, i: nat)
    requires i < 8 && Has(Requests(p), Line(i))
    ensures !Has(p.isr, Line(i))
  {}

  /** A take acknowledged by specific EOIs, on the slave and on the cascade
      for a slave line, leaves in service exactly what was before it, however
      much is nested inside; under automatic end of interrupt the take alone
      does. */
  lemma TakeThenEoi(c: Chip, mounted: bool)
    ensures var (after, got) := Take(c, mounted);
            match got
            case None => after == c
            case Some(irq) =>
              if irq < 8 then
                && after.slave.isr == c.slave.isr
                && (if c.master.aeoi then after.master else Command(after.master, Specific(irq))).isr == c.master.isr
              else if c.slave.aeoi then after.slave.isr == c.slave.isr && after.master.isr == c.master.isr
              else
                && Command(after.slave, Specific(irq - 8)).isr == c.slave.isr
                && Command(after.master, Specific(2)).isr == c.master.isr
  {
    DeliversOnlyRequests(c, mounted);
    hide Line, Lowest, Set, Clear, Has, Requests, Ended, Specific, Pending, Waiting;
    var (after, got) := Take(c, mounted);
    if got.Some? {
      var irq := got.value;
      CascadeLine();
      if irq < 8 {
        NotInService(c.master, irq);
        SetClear(c.master.isr, irq);
        SpecificEnds(after.master.isr, irq);
      } else {
        NotInService(c.slave, irq - 8);
        NotInService(c.master, 2);
        SetClear(c.slave.isr, irq - 8);
        SetClear(c.master.isr, 2);
        SpecificEnds(after.slave.isr, irq - 8);
        SpecificEnds(after.master.isr, 2);
      }
    }
  }

  /** The plain EOI does the same for a master line exactly when nothing of
      higher priority was in service. */
  lemma PlainEoiIff(c: Chip, mounted: bool, irq: nat)
    requires irq < 8 && Take(c, mounted).1 == Some(irq) && !c.master.aeoi
    ensures Command(Take(c, mounted).0.master, 0x20).isr == c.master.isr <==>
            forall j :: 0 <= j < irq ==> !Has(c.master.isr, Line(j))
  {
    DeliversOnlyRequests(c, mounted);
    hide Lowest, Requests, Pending, Waiting;
    NotInService(c.master, irq);
    LowestAfterSet(c.master.isr, irq);
  }

  lemma LowestAfterSet(b: bv8, i: nat)
    requires i < 8 && !Has(b, Line(i))
    ensures Set(b, Line(i)) != 0
    ensures Clear(Set(b, Line(i)), Line(Lowest(Set(b, Line(i))))) == b <==> forall j :: 0 <= j < i ==> !Has(b, Line(j))
  {
    var s := Set(b, Line(i));
    var l := Lowest(s);
    SetBits(b, i, l);
    if l == i {
      SetClear(b, i);
      forall j | 0 <= j < i ensures !Has(b, Line(j)) {
        SetBits(b, i, j);
      }
    } else {
      assert Has(b, Line(l)) && !Has(Clear(s, Line(l)), Line(l));
      if l > i {
        SetBits(b, i, i);
      }
    }
  }

  /** The timer asks, with preference, and is ahead of nothing but slave lines. */
  predicate Asking(c: Chip) {
    c.master.ready && c.master.vector >= 16 && TimerDue(c)
  }

  /** Every take of the run finds the timer asking. */
  ghost predicate AlwaysAsking(c: Chip, es: seq<Event>)
    requires forall e :: e in es ==> Proper(e)
    decreases |es|
  {
    es == [] || ((es[0].Took? ==> Asking(c)) && AlwaysAsking(Step(c, es[0]).0, es[1..]))
  }

  /** Virtio takes since the last timer take, one step on. */
  ghost function Streak(n: nat, got: Option<nat>): nat {
    if got == Some(0) then 0 else if got == Some(VIRTIO) then n + 1 else n
  }

  /** Over the whole run the streak, `n` so far, never passes `most`. */
  ghost predicate StreakWithin(c: Chip, es: seq<Event>, n: nat, most: nat)
    requires forall e :: e in es ==> Proper(e)
    decreases |es|
  {
    n <= most && (es == [] || StreakWithin(Step(c, es[0]).0, es[1..], Streak(n, Step(c, es[0]).1), most))
  }

  /** The latch's books: while no timer take is owed, the count covers the
      streak. */
  ghost predicate Covered(c: Chip, n: nat) {
    c.since <= 2 && n <= 3 && (c.owed || n <= c.since)
  }

  lemma StepCovers(c: Chip, e: Event, n: nat)
    requires Proper(e) && Covered(c, n)
    requires e.Took? ==> Asking(c)
    ensures Covered(Step(c, e).0, Streak(n, Step(c, e).1))
  {
    if e.Took? {
      TakeCovers(c, e.mounted, n);
    }
  }

  /** An owed timer take is the next one the virtio line cannot have. */
  lemma TakeCovers(c: Chip, mounted: bool, n: nat)
    requires Covered(c, n) && Asking(c)
    ensures Covered(Take(c, mounted).0, Streak(n, Take(c, mounted).1))
    ensures Pending(c) == Some(VIRTIO) ==> !c.owed
    ensures Pending(c).Some?
  {
    assert Requests(c.master) != 0;
  }

  ghost function Run(c: Chip, es: seq<Event>): Chip
    requires forall e :: e in es ==> Proper(e)
    decreases |es|
  {
    if es == [] then c else Run(Step(c, es[0]).0, es[1..])
  }

  /** Whatever the guest does, the count of virtio takes stays below three. */
  lemma {:induction false} RunCounts(c: Chip, es: seq<Event>)
    requires forall e :: e in es ==> Proper(e)
    requires c.since <= 2
    ensures Run(c, es).since <= 2
    decreases |es|
  {
    if es != [] {
      RunCounts(Step(c, es[0]).0, es[1..]);
    }
  }

  /** The timer is not starved: while it keeps asking, the virtio line is
      taken at most three times in a row without it, whatever lines rise and
      fall and whatever the guest writes in between. */
  lemma {:induction false} AtMostThree(c: Chip, es: seq<Event>, n: nat)
    requires forall e :: e in es ==> Proper(e)
    requires Covered(c, n) && AlwaysAsking(c, es)
    ensures StreakWithin(c, es, n, 3)
    decreases |es|
  {
    if es != [] {
      StepCovers(c, es[0], n);
      AtMostThree(Step(c, es[0]).0, es[1..], Streak(n, Step(c, es[0]).1));
    }
  }

  /** So it is in every stretch of every run from reset. */
  lemma NeverStarved(before: seq<Event>, es: seq<Event>)
    requires forall e :: e in before || e in es ==> Proper(e)
    requires AlwaysAsking(Run(RESET, before), es)
    ensures StreakWithin(Run(RESET, before), es, 0, 3)
  {
    RunCounts(RESET, before);
    AtMostThree(Run(RESET, before), es, 0);
  }

  ghost predicate Unmounted(es: seq<Event>) {
    forall e :: e in es && e.Took? ==> !e.mounted
  }

  /** Until the boot media is mounted the alternation is strict. */
  lemma {:induction false} AtMostOne(c: Chip, es: seq<Event>, n: nat)
    requires forall e :: e in es ==> Proper(e)
    requires n == 0 || (n == 1 && c.owed)
    requires AlwaysAsking(c, es) && Unmounted(es)
    ensures StreakWithin(c, es, n, 1)
    decreases |es|
  {
    if es != [] {
      assert es[0] in es;
      AtMostOne(Step(c, es[0]).0, es[1..], Streak(n, Step(c, es[0]).1));
    }
  }

  /** Three in a row does happen, so the bound is the exact one: a level
      virtio line under automatic end of interrupt, the timer asking
      throughout. */
  lemma ThreeHappens()
    ensures var c := Chip(Regs(0, 5, 0, 32, 0, false, true, false, true), Regs(0, 8, 0, 40, 0, false, true, false, true), true, false, false, 0);
            && AlwaysAsking(c, [Took(true), Took(true), Took(true)])
            && !StreakWithin(c, [Took(true), Took(true), Took(true)], 0, 2)
  {
    var c := Chip(Regs(0, 5, 0, 32, 0, false, true, false, true), Regs(0, 8, 0, 40, 0, false, true, false, true), true, false, false, 0);
    var t := Took(true);
    var c1 := c.(since := 1);
    var c2 := c.(since := 2);
    var c3 := c.(since := 0, owed := true);
    assert Step(c, t) == (c1, Some(VIRTIO));
    assert Step(c1, t) == (c2, Some(VIRTIO));
    assert Step(c2, t) == (c3, Some(VIRTIO));
    assert [t, t, t][1..] == [t, t] && [t, t][1..] == [t] && [t][1..] == [];
    assert AlwaysAsking(c3, []);
    assert AlwaysAsking(c2, [t]);
    assert AlwaysAsking(c1, [t, t]);
    assert !StreakWithin(c3, [], 3, 2);
    assert !StreakWithin(c2, [t], 2, 2);
    assert !StreakWithin(c1, [t, t], 1, 2);
  }

  // ---- the chip itself ----

  class IrqChip {
    var master: Regs
    var slave: Regs
    var hold: bool
    var once: bool
    var owed: bool
    var since: nat

    ghost function State(): Chip
      reads this
    {
      Chip(master, slave, hold, once, owed, since)
    }

    constructor ()
      ensures State() == RESET
    {
      master, slave := IDLE, IDLE;
      hold, once, owed, since := false, false, false, 0;
    }

    method RaiseLine(irq: nat)
      requires irq < 16
      modifies this
      ensures State() == Raise(old(State()), irq)
    {
      hide Line, Lowest, Set, Clear, Has, Requests, Waiting;
      if irq < 8 {
        master := master.(irr := Set(master.irr, Line(irq)));
      } else {
        slave := slave.(irr := Set(slave.irr, Line(irq - 8)));
        master := master.(irr := Set(master.irr, CASCADE));
      }
      if irq == VIRTIO {
        slave := slave.(imr := Clear(slave.imr, Line(irq - 8)));
        master := master.(imr := Clear(master.imr, CASCADE));
      }
    }

    method LowerLine(irq: nat)
      requires irq < 16
      modifies this
      ensures State() == Lower(old(State()), irq)
    {
      hide Line, Lowest, Set, Clear, Has, Requests, Waiting;
      if irq < 8 {
        master := master.(irr := Clear(master.irr, Line(irq)));
      } else {
        slave := slave.(irr := Clear(slave.irr, Line(irq - 8)));
        if !Waiting(slave) {
          master := master.(irr := Clear(master.irr, CASCADE));
        }
      }
    }

    method PendingLine() returns (r: Option<nat>)
      ensures r == Pending(State())
    {
      hide Line, Lowest, Set, Clear, Has, Requests, Waiting;
      if !master.ready || master.vector < 16 {
        return None;
      }
      var req := Requests(master);
      if req == 0 {
        return None;
      }
      var fromSlave := None;
      if Has(req, CASCADE) && slave.ready && slave.vector >= 16 {
        var slaveReq := Requests(slave);
        if slaveReq != 0 {
          fromSlave := Some(8 + Lowest(slaveReq));
        }
      }
      var timer := (hold || once) && Has(req, 1);
      if fromSlave == Some(VIRTIO) && timer && owed {
        return Some(0);
      }
      if fromSlave.Some? {
        return fromSlave;
      }
      if timer {
        return Some(0);
      }
      var dev := Clear(Clear(req, 1), CASCADE);
      if dev != 0 {
        return Some(Lowest(dev));
      }
      if Lowest(req) != 2 {
        r := Some(Lowest(req));
      } else {
        r := None;
      }
    }

    method NoteTake(irq: nat, mounted: bool)
      modifies this`once, this`owed, this`since
      ensures State() == Settle(old(State()), irq, mounted)
    {
      if irq == 0 {
        once, owed, since := false, false, 0;
      } else if irq == VIRTIO {
        if mounted {
          since := since + 1;
          owed := since >= 3;
          if since >= 3 {
            since := 0;
          }
        } else {
          owed := true;
        }
      }
    }

    /** Takes the next line and hands back its vector, which wraps at a byte. */
    method TakeLine(mounted: bool) returns (vector: Option<nat>)
      modifies this
      ensures State() == Take(old(State()), mounted).0
      ensures match Take(old(State()), mounted).1
              case None => vector == None
              case Some(irq) =>
                vector == Some((if irq < 8 then old(master.vector) + irq else old(slave.vector) + irq - 8) % 256)
    {
      hide Line, Lowest, Set, Clear, Has, Requests, Waiting;
      var next := PendingLine();
      if next.None? {
        return None;
      }
      var irq := next.value;
      NoteTake(irq, mounted);
      if irq < 8 {
        master := master.(irr := Clear(master.irr, Line(irq)));
        if !master.aeoi {
          master := master.(isr := Set(master.isr, Line(irq)));
        }
        vector := Some((master.vector + irq) % 256);
      } else {
        if irq != VIRTIO {
          slave := slave.(irr := Clear(slave.irr, Line(irq - 8)));
        }
        if !slave.aeoi {
          slave := slave.(isr := Set(slave.isr, Line(irq - 8)));
          master := master.(isr := Set(master.isr, CASCADE));
        }
        if !Waiting(slave) {
          master := master.(irr := Clear(master.irr, CASCADE));
        }
        vector := Some((slave.vector + irq - 8) % 256);
      }
    }

    method WriteCommand(toSlave: bool, val: bv8)
      modifies this`master, this`slave
      ensures State() == Step(old(State()), Commanded(toSlave, val)).0
    {
      hide Line, Lowest, IsEoi, Has, Clear;
      var p := if toSlave then slave else master;
      if Has(val, 0x10) {
        p := p.(init := 1, expectIcw4 := Has(val, 1));
        p := p.(imr := 0, isr := 0, irr := 0);
        p := p.(ready := false, readIsr := false, aeoi := false);
      } else if Has(val, 0x08) {
        p := p.(readIsr := val & 3 == 3);
      } else if IsEoi(val) && p.isr != 0 {
        var level := if Has(val, 0x40) then Level(val) else Lowest(p.isr);
        p := p.(isr := Clear(p.isr, Line(level)));
      }
      if toSlave {
        slave := p;
      } else {
        master := p;
      }
    }

    method WriteData(toSlave: bool, val: bv8)
      modifies this`master, this`slave
      ensures State() == Step(old(State()), Written(toSlave, val)).0
    {
      hide Has, Number;
      var p := if toSlave then slave else master;
      if p.init == 1 {
        p := p.(vector := Number(val));
        p := p.(init := 2);
      } else if p.init == 2 {
        p := p.(init := if p.expectIcw4 then 3 else 0);
        if p.init == 0 {
          p := p.(ready := p.vector >= 16);
        }
      } else if p.init == 3 {
        p := p.(init := 0);
        p := p.(ready := p.vector >= 16);
        p := p.(aeoi := Has(val, 2));
      } else {
        p := p.(imr := val);
      }
      if toSlave {
        slave := p;
      } else {
        master := p;
      }
    }
  }
}
