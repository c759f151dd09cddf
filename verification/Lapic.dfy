/** The virtual local APIC (section 10.8.3.1 of the Intel SDM, volume 3A):
    request and in-service registers, processor priority, and the takes and
    EOIs that move vectors between them. */
module Lapic {
  import opened Common
  import opened Bits

  // ---- the registers as sets of vectors ----

  datatype State = State(irr: set<nat>, isr: set<nat>, self: set<nat>, tpr: nat, icrHigh: nat, id: nat)

  ghost predicate Vectors(s: set<nat>) {
    forall v :: v in s ==> v < 256
  }

  ghost predicate Ok(s: State) {
    Vectors(s.irr) && Vectors(s.isr) && Vectors(s.self)
  }

  const RESET: State := State({}, {}, {}, 0, 0, 0)

  /** Priority class: the high four bits of a vector. */
  function Class(v: nat): nat {
    v / 16
  }

  ghost predicate IsTop(s: set<nat>, v: nat) {
    v in s && forall x :: x in s ==> x <= v
  }

  ghost function Top(s: set<nat>): (t: nat)
    requires s != {}
    ensures IsTop(s, t)
  {
    var x :| x in s;
    if s == {x} then x
    else
      var t := Top(s - {x});
      assert s == s - {x} + {x};
      if x > t then x else t
  }

  /** The class a vector must beat: that of the task priority or of the
      highest vector in service, whichever is greater. */
  ghost function Threshold(s: State): nat {
    var task := s.tpr % 256 / 16;
    if s.isr != {} && Class(Top(s.isr)) > task then Class(Top(s.isr)) else task
  }

  datatype Event =
    | Latch(v: nat) | Fire(v: nat)
    | WriteTpr(val: nat) | WriteIcrHigh(val: nat) | WriteIcrLow(val: nat)
    | Take | TakeVec(v: nat) | TakeSelf
    | Eoi

  ghost function Serve(s: State, v: nat): (r: (State, Option<nat>)) {
    if Class(v) <= Threshold(s) then (s, None) else (s.(irr := s.irr - {v}, isr := s.isr + {v}), Some(v))
  }

  /** A fixed-mode send that names this processor. */
  predicate ToSelf(s: State, val: nat) {
    var shorthand := val / 0x4_0000 % 4;
    var mode := val / 0x100 % 8;
    && mode == 0 && 32 <= val % 256
    && (shorthand == 1 || shorthand == 2 || (shorthand == 0 && s.icrHigh / 0x100_0000 == s.id / 0x100_0000))
  }

  /** The effect of one event, and the vector it delivered or retired. */
  ghost function Step(s: State, e: Event): (r: (State, Option<nat>)) {
    match e
    case Latch(v) => (if 16 <= v then s.(irr := s.irr + {v}) else s, None)
    case Fire(v) => (s.(irr := s.irr + {v}), None)
    case WriteTpr(val) => (s.(tpr := val), None)
    case WriteIcrHigh(val) => (s.(icrHigh := val), None)
    case WriteIcrLow(val) =>
      (if ToSelf(s, val) then s.(irr := s.irr + {val % 256}, self := s.self + {val % 256}) else s, None)
    case Take => if s.irr == {} then (s, None) else Serve(s, Top(s.irr))
    case TakeVec(v) => if v < 16 || v !in s.irr then (s, None) else Serve(s, v)
    case TakeSelf =>
      var due := s.self * s.irr;
      if due == {} || Class(Top(due)) <= Threshold(s) then (s, None)
      else
        var s1 := s.(self := s.self - {Top(due)});
        if Top(due) < 16 then (s1, None) else Serve(s1, Top(due))
    case Eoi =>
      if s.isr == {} then (s, None) else (s.(isr := s.isr - {Top(s.isr)}), Some(Top(s.isr)))
  }

  predicate Byte(e: Event) {
    match e
    case Latch(v) => v < 256
    case Fire(v) => v < 256
    case TakeVec(v) => v < 256
    case _ => true
  }

  // ---- the in-service register is a stack ----

  /** Vectors in service, oldest first. */
  ghost predicate Stacked(s: State, stack: seq<nat>) {
    && Ok(s)
    && (forall v :: v in s.isr <==> v in stack)
    && (forall i :: 0 <= i < |stack| ==> 1 <= Class(stack[i]) <= 15)
    && (forall i, j :: 0 <= i < j < |stack| ==> Class(stack[i]) < Class(stack[j]))
  }

  predicate IsTake(e: Event) {
    e.Take? || e.TakeVec? || e.TakeSelf?
  }

  /** A take pushes, an EOI pops. */
  ghost function Pushed(stack: seq<nat>, e: Event, out: Option<nat>): (r: seq<nat>) {
    if IsTake(e) && out.Some? then stack + [out.value]
    else if e.Eoi? && stack != [] then stack[..|stack| - 1]
    else stack
  }

  predicate Outranks(v: nat, stack: seq<nat>) {
    forall i :: 0 <= i < |stack| ==> Class(stack[i]) < Class(v)
  }

  lemma TopIsLast(s: State, stack: seq<nat>)
    requires Stacked(s, stack) && stack != []
    ensures s.isr != {} && Top(s.isr) == stack[|stack| - 1]
  {
    var last := stack[|stack| - 1];
    assert last in stack;
    forall x | x in s.isr ensures x <= last {
      var i :| 0 <= i < |stack| && stack[i] == x;
    }
  }

  lemma ServeStacks(s: State, stack: seq<nat>, v: nat)
    requires Stacked(s, stack) && v < 256
    ensures var (s', out) := Serve(s, v);
            && (out.Some? ==> out == Some(v) && Stacked(s', stack + [v]) && Outranks(v, stack))
            && (out.None? ==> s' == s)
  {
    if stack != [] {
      TopIsLast(s, stack);
    }
    assert stack == [] ==> s.isr == {} by {
      if stack == [] {
        assert forall x :: x !in s.isr;
      }
    }
  }

  lemma EoiPops(s: State, stack: seq<nat>)
    requires Stacked(s, stack)
    ensures var (s', out) := Step(s, Eoi);
            && Stacked(s', Pushed(stack, Eoi, out))
            && out == if stack == [] then None else Some(stack[|stack| - 1])
  {
    if stack != [] {
      TopIsLast(s, stack);
      var last := stack[|stack| - 1];
      var rest := stack[..|stack| - 1];
      assert forall v :: v in stack <==> v in rest || v == last;
    } else {
      NothingInService(s);
    }
  }

  lemma NothingInService(s: State)
    requires Stacked(s, [])
    ensures s.isr == {}
  {
    assert forall x :: x !in s.isr;
  }

  lemma RequestsOnly(s: State, s': State, stack: seq<nat>)
    requires Stacked(s, stack) && s'.isr == s.isr && Vectors(s'.irr) && Vectors(s'.self)
    ensures Stacked(s', stack)
  {}

  /** One event keeps the stack discipline: what is delivered outranks all
      that is in service, and an EOI retires the latest delivery. */
  lemma StepStacks(s: State, stack: seq<nat>, e: Event)
    requires Stacked(s, stack) && Byte(e)
    ensures var (s', out) := Step(s, e);
            && Stacked(s', Pushed(stack, e, out))
            && (IsTake(e) && out.Some? ==> Outranks(out.value, stack))
            && (e.Eoi? ==> out == if stack == [] then None else Some(stack[|stack| - 1]))
  {
    OkOf(s, stack);
    hide Stacked, Outranks, Serve, ToSelf;
    match e
    case Take =>
      if s.irr != {} {
        ServeStacks(s, stack, Top(s.irr));
      }
    case TakeVec(v) => ServeStacks(s, stack, v);
    case TakeSelf =>
      var due := s.self * s.irr;
      if due != {} {
        var s1 := s.(self := s.self - {Top(due)});
        RequestsOnly(s, s1, stack);
        ServeStacks(s1, stack, Top(due));
      }
    case Eoi => EoiPops(s, stack);
    case _ => RequestsOnly(s, Step(s, e).0, stack);
  }

  lemma OkOf(s: State, stack: seq<nat>)
    requires Stacked(s, stack)
    ensures Ok(s)
  {}

  /** Run a list of events, collecting what was delivered or retired. */
  ghost function Run(s: State, stack: seq<nat>, es: seq<Event>): (r: (State, seq<nat>))
    decreases |es|
  {
    if es == [] then (s, stack)
    else var (s', out) := Step(s, es[0]); Run(s', Pushed(stack, es[0], out), es[1..])
  }

  /** In every run the in-service register is the stack of undismissed
      deliveries. */
  lemma {:induction false} RunStacks(s: State, stack: seq<nat>, es: seq<Event>)
    requires Stacked(s, stack) && forall i :: 0 <= i < |es| ==> Byte(es[i])
    ensures var (s', stack') := Run(s, stack, es); Stacked(s', stack')
    decreases |es|
  {
    if es != [] {
      StepStacks(s, stack, es[0]);
      var (s', out) := Step(s, es[0]);
      RunStacks(s', Pushed(stack, es[0], out), es[1..]);
    }
  }

  /** Classes climb from 1 to 15, so the stack holds fifteen at most. */
  lemma {:induction false} DepthBound(s: State, stack: seq<nat>, i: nat)
    requires Stacked(s, stack) && i < |stack|
    ensures i + 1 <= Class(stack[i])
    decreases i
  {
    if i > 0 {
      DepthBound(s, stack, i - 1);
    }
  }

  lemma FifteenDeep(s: State, stack: seq<nat>)
    requires Stacked(s, stack)
    ensures |stack| <= 15
  {
    if stack != [] {
      DepthBound(s, stack, |stack| - 1);
    }
  }

  /** A take that ignores the priority, as the firmware's halt loop makes. */
  ghost function Forced(s: State, v: nat): State {
    s.(irr := s.irr - {v}, isr := s.isr + {v})
  }

  /** A forced take of a vector not in service nests, that is, the next EOI
      retires it and leaves the stack as it was, exactly when it is above the
      latest delivery. Otherwise that older delivery is retired in its place. */
  lemma ForcedTakeIff(s: State, stack: seq<nat>, v: nat)
    requires Stacked(s, stack) && v < 256 && v !in s.isr
    ensures var (s', out) := Step(Forced(s, v), Eoi);
            if stack == [] || stack[|stack| - 1] < v then out == Some(v) && Stacked(s', stack)
            else out == Some(stack[|stack| - 1]) && !Stacked(s', stack)
  {
    var f := Forced(s, v);
    assert v in f.isr;
    if stack == [] {
      NothingInService(s);
      assert IsTop(f.isr, v);
    } else {
      TopIsLast(s, stack);
      var last := stack[|stack| - 1];
      if last < v {
        assert IsTop(f.isr, v);
        assert f.isr - {v} == s.isr;
      } else {
        assert IsTop(f.isr, last);
        assert last in stack && last !in Step(f, Eoi).0.isr;
      }
    }
  }

  // ---- the timer ----

  /** Spurious-vector and timer entry registers, divider, initial count, the
      TSC it was written at, and the delivery armed for it. */
  datatype Timer = Timer(svr: nat, lvt: nat, divide: nat, init: nat, start: nat, running: bool,
                         armed: bool, pending: Option<nat>)

  const TIMER_RESET: Timer := Timer(0x1FF, 0x1_00EF, 3, 0, 0, false, false, None)

  const TSC_PER_BUS_CYCLE: nat := 32

  /** The timer entry is unmasked and the APIC enabled. */
  predicate Delivers(t: Timer) {
    t.lvt / 0x1_0000 % 2 == 0 && t.svr / 0x100 % 2 == 1
  }

  predicate Periodic(t: Timer) {
    t.lvt / 0x2_0000 % 2 == 1
  }

  function Divider(d: nat): (n: nat)
    ensures n > 0
  {
    match d % 4 + 8 * (d / 8 % 2)
    case 0 => 2
    case 1 => 4
    case 2 => 8
    case 3 => 16
    case 8 => 1
    case 9 => 32
    case 10 => 64
    case _ => 128
  }

  /** Counts since the countdown began; the TSC wraps at 64 bits. */
  function Elapsed(t: Timer, now: nat): nat {
    if !t.running || t.init == 0 then 0 else Ticks(now, t.start) / TSC_PER_BUS_CYCLE / Divider(t.divide)
  }

  function Ticks(now: nat, start: nat): nat {
    (now - start) % U64
  }

  function Count(t: Timer, now: nat): (n: nat) {
    if !t.running || t.init == 0 then 0
    else if Periodic(t) then t.init - Elapsed(t, now) % t.init
    else SatSub(t.init, Elapsed(t, now))
  }

  function Armed(t: Timer, now: nat): Timer {
    if t.running && Delivers(t) && Count(t, now) != 0 then t.(armed := true, pending := Some(t.lvt % 256)) else t
  }

  function Started(t: Timer, val: nat, now: nat, later: nat): Timer {
    if val == 0 then t.(init := 0, running := false, armed := false, pending := None)
    else Armed(t.(init := val, start := now, running := true), later)
  }

  /** The vector a fire requests. */
  function Noted(t: Timer): nat {
    if t.pending.Some? then t.pending.value else t.lvt % 256
  }

  function Fired(t: Timer, now: nat): Timer {
    if !t.armed then t
    else
      var t1 := t.(armed := false, pending := None);
      if Periodic(t) && t.init != 0 && Delivers(t) then Armed(t1.(start := now, running := true), now)
      else t1.(running := false)
  }

  predicate Expired(t: Timer, now: nat) {
    t.armed && t.running && t.init != 0 && t.init <= Elapsed(t, now)
  }

  /** A counting one-shot timer has expired exactly when its count reads zero;
      a periodic one never reads zero. */
  lemma ExpiredIffZero(t: Timer, now: nat)
    requires t.running && t.init != 0
    ensures if Periodic(t) then 1 <= Count(t, now) <= t.init
            else t.armed ==> (Expired(t, now) <==> Count(t, now) == 0)
  {
    hide Elapsed;
  }

  /** A fire disarms a one-shot timer for good, whatever the clock says later;
      a periodic one that delivers is armed again with its current vector. */
  lemma FiresOnce(t: Timer, now: nat, later: nat)
    requires t.armed
    ensures if Periodic(t) && t.init != 0 && Delivers(t) then
              Fired(t, now).armed && Noted(Fired(t, now)) == t.lvt % 256 && Fired(t, now).start == now
            else !Fired(t, now).armed && !Expired(Fired(t, now), later)
  {
    hide Elapsed;
    if Periodic(t) && t.init != 0 {
      var t2 := t.(armed := false, pending := None).(start := now, running := true);
      ExpiredIffZero(t2, now);
    }
  }

  // ---- eight words of thirty-two bits ----

  ghost predicate Words(r: seq<nat>) {
    |r| == 8 && forall i :: 0 <= i < 8 ==> r[i] < Pow2(32)
  }

  predicate Holds(r: seq<nat>, v: nat)
    requires |r| == 8
  {
    v < 256 && Bit(r[v / 32], v % 32)
  }

  /** The vectors whose bits are set. */
  ghost function View(r: seq<nat>): (s: set<nat>)
    requires |r| == 8
    ensures Vectors(s)
  {
    set v: nat | v < 256 && Holds(r, v)
  }

  lemma ViewSet(r: seq<nat>, v: nat)
    requires Words(r) && v < 256
    ensures Words(r[v / 32 := SetBit(r[v / 32], v % 32)])
    ensures View(r[v / 32 := SetBit(r[v / 32], v % 32)]) == View(r) + {v}
  {
    var r' := r[v / 32 := SetBit(r[v / 32], v % 32)];
    SetBitBound(r[v / 32], v % 32, 32);
    forall x: nat | x < 256 ensures Holds(r', x) <==> Holds(r, x) || x == v {
      SetBitBits(r[v / 32], v % 32, x % 32);
      assert x == x / 32 * 32 + x % 32 && v == v / 32 * 32 + v % 32;
    }
  }

  lemma ViewClear(r: seq<nat>, v: nat)
    requires Words(r) && v < 256
    ensures Words(r[v / 32 := ClearBit(r[v / 32], v % 32)])
    ensures View(r[v / 32 := ClearBit(r[v / 32], v % 32)]) == View(r) - {v}
  {
    var r' := r[v / 32 := ClearBit(r[v / 32], v % 32)];
    SetBitBound(r[v / 32], v % 32, 32);
    forall x: nat | x < 256 ensures Holds(r', x) <==> Holds(r, x) && x != v {
      ClearBitBits(r[v / 32], v % 32, x % 32);
      assert x == x / 32 * 32 + x % 32 && v == v / 32 * 32 + v % 32;
    }
  }

  function Both(r: seq<nat>, q: seq<nat>): (b: seq<nat>)
    requires |r| == 8 && |q| == 8
    ensures |b| == 8 && forall i :: 0 <= i < 8 ==> b[i] == And(r[i], q[i])
  {
    seq(8, i requires 0 <= i < 8 => And(r[i], q[i]))
  }

  lemma ViewAnd(r: seq<nat>, q: seq<nat>)
    requires Words(r) && Words(q)
    ensures Words(Both(r, q)) && View(Both(r, q)) == View(r) * View(q)
  {
    forall x: nat | x < 256 ensures Holds(Both(r, q), x) <==> Holds(r, x) && Holds(q, x) {
      AndBits(r[x / 32], q[x / 32], x % 32);
    }
  }

  /** Scan the words from the top for the highest vector. */
  method HighestBit(r: seq<nat>) returns (h: Option<nat>)
    requires Words(r)
    ensures h == if View(r) == {} then None else Some(Top(View(r)))
  {
    var i := 8;
    while i > 0
      invariant 0 <= i <= 8
      invariant forall j :: i <= j < 8 ==> r[j] == 0
    {
      i := i - 1;
      if r[i] != 0 {
        var v := i * 32 + HighBit(r[i]);
        TopFound(r, i);
        return Some(v);
      }
    }
    forall x: nat | x < 256 ensures !Holds(r, x) {
      ZeroBits(x % 32);
    }
    assert View(r) == {};
    return None;
  }

  lemma NoneAbove(r: seq<nat>, i: nat, x: nat)
    requires Words(r) && i < 8 && r[i] != 0 && forall j :: i < j < 8 ==> r[j] == 0
    requires Holds(r, x)
    ensures x <= i * 32 + HighBit(r[i])
  {
    hide Bit, HighBit;
    HighBitIsTop(r[i], x % 32);
    ZeroBits(x % 32);
    assert x == x / 32 * 32 + x % 32;
  }

  lemma TopFound(r: seq<nat>, i: nat)
    requires Words(r) && i < 8 && r[i] != 0 && forall j :: i < j < 8 ==> r[j] == 0
    ensures View(r) != {} && Top(View(r)) == i * 32 + HighBit(r[i])
  {
    hide Bit, HighBit, Top;
    var b := HighBit(r[i]);
    if b >= 32 {
      Pow2Grows(32, b);
    }
    var v := i * 32 + b;
    HighBitIsTop(r[i], 0);
    assert v / 32 == i && v % 32 == b;
    assert v in View(r);
    forall x | x in View(r) ensures x <= v {
      NoneAbove(r, i, x);
    }
    assert IsTop(View(r), v);
  }

  class Apic {
    const irr: array<nat>
    const isr: array<nat>
    const self: array<nat>
    var tpr: nat
    var icrHigh: nat
    var id: nat
    var timer: Timer

    ghost predicate Valid()
      reads this, irr, isr, self
    {
      && irr != isr && irr != self && isr != self
      && irr.Length == 8 && isr.Length == 8 && self.Length == 8
      && Words(irr[..]) && Words(isr[..]) && Words(self[..])
      && (timer.pending.Some? ==> timer.pending.value < 256)
    }

    /** The registers as sets. */
    ghost function Now(): (s: State)
      requires Valid()
      reads this, irr, isr, self
      ensures Ok(s)
    {
      State(View(irr[..]), View(isr[..]), View(self[..]), tpr, icrHigh, id)
    }

    constructor ()
      ensures Valid() && Now() == RESET && fresh(irr) && fresh(isr) && fresh(self)
    {
      irr := new nat[8](_ => 0);
      isr := new nat[8](_ => 0);
      self := new nat[8](_ => 0);
      tpr, icrHigh, id := 0, 0, 0;
      timer := TIMER_RESET;
      new;
      forall x: nat | x < 256 ensures !Holds(irr[..], x) && !Holds(isr[..], x) && !Holds(self[..], x) {
        ZeroBits(x % 32);
      }
    }

    method SetVector(r: array<nat>, v: nat)
      requires r.Length == 8 && Words(r[..]) && v < 256
      modifies r
      ensures Words(r[..]) && View(r[..]) == old(View(r[..])) + {v}
    {
      ViewSet(r[..], v);
      ghost var w := r[..];
      r[v / 32] := SetBit(r[v / 32], v % 32);
      assert r[..] == w[v / 32 := SetBit(w[v / 32], v % 32)];
    }

    method ClearVector(r: array<nat>, v: nat)
      requires r.Length == 8 && Words(r[..]) && v < 256
      modifies r
      ensures Words(r[..]) && View(r[..]) == old(View(r[..])) - {v}
    {
      ViewClear(r[..], v);
      ghost var w := r[..];
      r[v / 32] := ClearBit(r[v / 32], v % 32);
      assert r[..] == w[v / 32 := ClearBit(w[v / 32], v % 32)];
    }

    method LatchIrr(v: nat)
      requires Valid() && v < 256
      modifies irr
      ensures Valid() && Now() == Step(old(Now()), Latch(v)).0
    {
      hide Words, View;
      if v >= 16 {
        SetVector(irr, v);
      }
    }

    /** The guest enables the APIC, or sets up the timer entry. */
    method WriteSvr(val: nat, now: nat)
      requires Valid()
      modifies this`timer
      ensures Valid() && Now() == old(Now()) && timer == Armed(old(timer).(svr := val), now)
    {
      timer := timer.(svr := val);
      ArmTimer(now);
    }

    method WriteLvt(val: nat, now: nat)
      requires Valid()
      modifies this`timer
      ensures Valid() && Now() == old(Now()) && timer == Armed(old(timer).(lvt := val), now)
    {
      timer := timer.(lvt := val);
      ArmTimer(now);
    }

    /** Notes the timer's vector while it counts and may deliver. */
    method ArmTimer(now: nat)
      requires Valid()
      modifies this`timer
      ensures Valid() && Now() == old(Now()) && timer == Armed(old(timer), now)
    {
      if timer.running && Delivers(timer) && Count(timer, now) != 0 {
        timer := timer.(armed := true);
        timer := timer.(pending := Some(timer.lvt % 256));
      }
    }

    /** A write to the initial count starts the countdown; zero cancels it. */
    method StartCountdown(val: nat, now: nat, later: nat)
      requires Valid()
      modifies this`timer
      ensures Valid() && Now() == old(Now()) && timer == Started(old(timer), val, now, later)
    {
      timer := timer.(init := val);
      if val == 0 {
        timer := timer.(running := false, armed := false, pending := None);
        return;
      }
      timer := timer.(start := now, running := true);
      ArmTimer(later);
    }

    /** The host timer fires. It requests the vector noted when it was armed,
        if it was, and if the guest still lets the timer deliver. */
    method FireTimer(now: nat) returns (fired: bool)
      requires Valid()
      modifies irr, this`timer
      ensures Valid() && fired == old(timer).armed
      ensures timer == Fired(old(timer), now)
      ensures Now() == if fired && Delivers(old(timer)) then Step(old(Now()), Fire(Noted(old(timer)))).0 else old(Now())
    {
      hide Words, View, Count;
      if !timer.armed {
        return false;
      }
      timer := timer.(armed := false);
      var v := if timer.pending.Some? then timer.pending.value else timer.lvt % 256;
      timer := timer.(pending := None);
      if Delivers(timer) {
        SetVector(irr, v);
      }
      if Periodic(timer) && timer.init != 0 && Delivers(timer) {
        timer := timer.(start := now, running := true);
        ArmTimer(now);
      } else {
        timer := timer.(running := false);
      }
      return true;
    }

    /** Fires the timer once its count has run out. */
    method PollTimer(now: nat) returns (fired: bool)
      requires Valid()
      modifies irr, this`timer
      ensures Valid() && (fired <==> Expired(old(timer), now))
      ensures timer == if fired then Fired(old(timer), now) else old(timer)
      ensures Now() == if fired && Delivers(old(timer)) then Step(old(Now()), Fire(Noted(old(timer)))).0 else old(Now())
    {
      hide Words, View;
      if !timer.armed || !timer.running || timer.init == 0 {
        return false;
      }
      if Elapsed(timer, now) < timer.init {
        return false;
      }
      fired := FireTimer(now);
    }

    method SetTpr(val: nat)
      requires Valid()
      modifies this`tpr
      ensures Valid() && Now() == Step(old(Now()), WriteTpr(val)).0
    {
      tpr := val;
    }

    method SetIcrHigh(val: nat)
      requires Valid()
      modifies this`icrHigh
      ensures Valid() && Now() == Step(old(Now()), WriteIcrHigh(val)).0
    {
      icrHigh := val;
    }

    method AcceptIcrLow(val: nat)
      requires Valid()
      modifies irr, self
      ensures Valid() && Now() == Step(old(Now()), WriteIcrLow(val)).0
    {
      hide Words, View;
      var shorthand, mode, vector := val / 0x4_0000 % 4, val / 0x100 % 8, val % 256;
      if mode != 0 || vector < 32 {
        return;
      }
      var dest, apicId := icrHigh / 0x100_0000, id / 0x100_0000;
      var toSelf := shorthand == 1 || shorthand == 2 || (shorthand == 0 && dest == apicId);
      if !toSelf {
        return;
      }
      SetVector(irr, vector);
      SetVector(self, vector);
    }

    /** The processor priority's class. */
    method PriorityClass() returns (c: nat)
      requires Valid()
      ensures c == Threshold(Now())
    {
      hide Words, View;
      var task := tpr % 256 / 16;
      var h := HighestBit(isr[..]);
      c := if h.Some? && Class(h.value) > task then Class(h.value) else task;
    }

    method MoveToService(v: nat)
      requires Valid() && v < 256
      modifies irr, isr
      ensures Valid()
      ensures Now() == old(Now()).(irr := old(Now()).irr - {v}, isr := old(Now()).isr + {v})
    {
      hide Words, View;
      ClearVector(irr, v);
      SetVector(isr, v);
    }

    method TakeDeliverable() returns (r: Option<nat>)
      requires Valid()
      modifies irr, isr
      ensures Valid() && (Now(), r) == Step(old(Now()), Take)
    {
      hide Words, View, Threshold;
      var h := HighestBit(irr[..]);
      if h.None? {
        return None;
      }
      var c := PriorityClass();
      if Class(h.value) <= c {
        return None;
      }
      MoveToService(h.value);
      return Some(h.value);
    }

    method TakeIrrVec(v: nat) returns (r: Option<nat>)
      requires Valid() && v < 256
      modifies irr, isr
      ensures Valid() && (Now(), r) == Step(old(Now()), TakeVec(v))
    {
      hide Words, Threshold;
      if v < 16 || !Bit(irr[v / 32], v % 32) {
        return None;
      }
      var c := PriorityClass();
      if Class(v) <= c {
        return None;
      }
      MoveToService(v);
      return Some(v);
    }

    method TakeSelfIpi() returns (r: Option<nat>)
      requires Valid()
      modifies irr, isr, self
      ensures Valid() && (Now(), r) == Step(old(Now()), TakeSelf)
    {
      hide Words, View;
      ViewAnd(self[..], irr[..]);
      var h := HighestBit(Both(self[..], irr[..]));
      if h.None? {
        return None;
      }
      var c := PriorityClass();
      if Class(h.value) <= c {
        return None;
      }
      ClearVector(self, h.value);
      r := TakeIrrVec(h.value);
    }

    method HandleEoi() returns (r: Option<nat>)
      requires Valid()
      modifies isr
      ensures Valid() && (Now(), r) == Step(old(Now()), Event.Eoi)
    {
      hide Words, View;
      r := HighestBit(isr[..]);
      if r.Some? {
        ClearVector(isr, r.value);
      }
    }
  }
}
