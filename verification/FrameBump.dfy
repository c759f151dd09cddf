/** The lock-free bump over leftover DRAM: one seed, then any number of takers
    racing for 2 MiB frames. */
module FrameBump {
  import opened Common

  const FRAME: nat := 0x20_0000
  const SPAN_MAX: nat := 0x8000_0000

  type Address = x: nat | x < 0x1_0000_0000_0000_0000

  /** Addition that stops at the last address. */
  function Plus(a: Address, b: Address): (r: Address)
    ensures r == if a + b < U64 then a + b else U64 - 1
  {
    if a + b < U64 then a + b else U64 - 1
  }

  function Down(a: Address): (r: Address)
    ensures r % FRAME == 0 && r <= a < r + FRAME
  {
    a / 0x20_0000 * 0x20_0000
  }

  /** A whole frame at `n` ends by `end`, as the code tests it. */
  predicate Fits(n: Address, end: Address) {
    n != 0 && Plus(n, FRAME) <= end
  }

  // ---- the seed ----

  datatype Bump = Bump(next: Address, end: Address)

  function Seed(start: Address, bytes: Address): (r: Bump)
    ensures r.next % FRAME == 0 && (r.next != 0 ==> Fits(r.next, r.end))
  {
    var aligned := Down(Plus(start, FRAME - 1));
    var end := Plus(start, bytes);
    var cap := Plus(aligned, SPAN_MAX);
    var use := if end < cap then end else cap;
    if aligned == 0 || Plus(aligned, FRAME) > use then Bump(0, 0) else Bump(aligned, use)
  }

  /** Frame `i` of a bump first set at `first`. */
  function FrameAt(first: nat, i: nat): nat {
    first + i * 0x20_0000
  }

  predicate Inside(n: nat, start: nat, bytes: nat) {
    start <= n && n + FRAME <= start + bytes
  }

  /** The span reaches the top of the address space, where the saturated end
      no longer tells a whole frame from one that is cut short. */
  predicate TouchesTop(start: Address, bytes: Address) {
    && start + bytes >= U64 - 1
    && Down(Plus(start, FRAME - 1)) + SPAN_MAX >= U64
    && (start > U64 - FRAME || start + bytes == U64 - 1)
  }

  /** Every frame the bump can hand out lies in the seeded span exactly when
      the span does not touch the top. */
  lemma InsideIff(start: Address, bytes: Address)
    ensures var b := Seed(start, bytes);
            (forall n: Address {:trigger Fits(n, b.end)} ::
               n % FRAME == 0 && 0 < b.next <= n && Fits(n, b.end) ==> Inside(n, start, bytes))
            <==> !TouchesTop(start, bytes)
  {
    var b := Seed(start, bytes);
    var top: Address := U64 - FRAME;
    if TouchesTop(start, bytes) {
      assert top % FRAME == 0;
      assert Down(Plus(start, FRAME - 1)) <= top;
      assert Fits(top, b.end);
      assert !Inside(top, start, bytes);
    } else {
      forall n: Address | n % FRAME == 0 && 0 < b.next <= n && Fits(n, b.end)
        ensures Inside(n, start, bytes)
      {
        FrameInside(start, bytes, n);
      }
    }
  }

  lemma FrameInside(start: Address, bytes: Address, n: Address)
    requires !TouchesTop(start, bytes)
    requires var b := Seed(start, bytes); n % FRAME == 0 && 0 < b.next <= n && Fits(n, b.end)
    ensures Inside(n, start, bytes)
  {
    var b := Seed(start, bytes);
    if n + FRAME >= U64 {
      assert n == U64 - FRAME;
    }
  }

  /** The cap: no frame starts 2 GiB or more above the first. */
  lemma Capped(start: Address, bytes: Address, n: Address)
    requires var b := Seed(start, bytes); b.next != 0 && Fits(n, b.end)
    ensures n < Seed(start, bytes).next + SPAN_MAX
  {}

  // ---- the race ----

  /** Where a taker stands: between calls, after loading the cursor, after
      loading the end. `at` counts the grants made when it loaded the cursor. */
  datatype Taker = Ready | GotNext(n: Address, at: nat) | GotBoth(n: Address, at: nat)

  datatype Grant = Grant(who: nat, frame: Address)

  datatype State = State(next: Address, end: Address, takers: map<nat, Taker>, grants: seq<Grant>)

  datatype Outcome = Working | Empty | Retry | Took(frame: Address)

  function TakerOf(s: State, id: nat): Taker {
    if id in s.takers then s.takers[id] else Ready
  }

  /** One atomic step of taker `id`. */
  function Step(s: State, id: nat): (r: (State, Outcome)) {
    match TakerOf(s, id)
    case Ready => (s.(takers := s.takers[id := GotNext(s.next, |s.grants|)]), Working)
    case GotNext(n, at) =>
      if Fits(n, s.end) then (s.(takers := s.takers[id := GotBoth(n, at)]), Working)
      else (s.(takers := s.takers[id := Ready]), Empty)
    case GotBoth(n, at) =>
      if s.next == n then
        (s.(next := (n + FRAME) % U64, takers := s.takers[id := Ready], grants := s.grants + [Grant(id, n)]), Took(n))
      else (s.(takers := s.takers[id := Ready]), Retry)
  }

  function Start(b: Bump): State {
    State(b.next, b.end, map[], [])
  }

  function Run(s: State, schedule: seq<nat>): State
    decreases |schedule|
  {
    if schedule == [] then s else Run(Step(s, schedule[0]).0, schedule[1..])
  }

  /** The cursor after `k` grants: past the top frame it wraps to zero. */
  function Cursor(first: nat, k: nat): nat {
    if FrameAt(first, k) == U64 then 0 else FrameAt(first, k)
  }

  ghost predicate TakerOk(s: State, b: Bump, id: nat) {
    match TakerOf(s, id)
    case Ready => true
    case GotNext(n, at) => at <= |s.grants| && n == Cursor(b.next, at) && NotMine(s, id, at)
    case GotBoth(n, at) => at <= |s.grants| && n == Cursor(b.next, at) && NotMine(s, id, at) && Fits(n, b.end)
  }

  /** No grant from the `at`-th on went to `id`. */
  ghost predicate NotMine(s: State, id: nat, at: nat) {
    forall j {:trigger s.grants[j]} :: at <= j < |s.grants| ==> s.grants[j].who != id
  }

  /** The grants so far are the first frames of the bump, one each, in order. */
  ghost predicate Inv(s: State, b: Bump) {
    && s.end == b.end && s.next == Cursor(b.next, |s.grants|)
    && FrameAt(b.next, |s.grants|) <= U64
    && (b.next == 0 ==> s.grants == [])
    && (forall i {:trigger s.grants[i]} :: 0 <= i < |s.grants| ==>
          s.grants[i].frame == FrameAt(b.next, i) && Fits(s.grants[i].frame, b.end))
    && (forall id {:trigger TakerOf(s, id)} :: TakerOk(s, b, id))
  }

  lemma FrameGrows(first: nat, i: nat, j: nat)
    requires i < j
    ensures FrameAt(first, i) + FRAME <= FrameAt(first, j)
  {}

  lemma StepKeeps(s: State, b: Bump, id: nat)
    requires Inv(s, b) && b.next % FRAME == 0
    ensures Inv(Step(s, id).0, b)
  {
    var s' := Step(s, id).0;
    assert TakerOk(s, b, id);
    if Step(s, id).1.Took? {
      TookKeeps(s, b, id);
    } else {
      forall other
        ensures TakerOk(s', b, other)
      {
        assert TakerOk(s, b, other);
      }
    }
  }

  lemma TookKeeps(s: State, b: Bump, id: nat)
    requires Inv(s, b) && b.next % FRAME == 0 && Step(s, id).1.Took?
    ensures Inv(Step(s, id).0, b)
  {
    var s' := Step(s, id).0;
    var k := |s.grants|;
    assert TakerOk(s, b, id);
    assert s.next == FrameAt(b.next, k) && FrameAt(b.next, k + 1) == s.next + FRAME <= U64 by {
      assert s.next % FRAME == 0;
    }
    forall other
      ensures TakerOk(s', b, other)
    {
      assert TakerOk(s, b, other);
    }
  }

  lemma {:induction false} RunKeeps(s: State, b: Bump, schedule: seq<nat>)
    requires Inv(s, b) && b.next % FRAME == 0
    ensures Inv(Run(s, schedule), b)
    decreases |schedule|
  {
    if schedule != [] {
      StepKeeps(s, b, schedule[0]);
      RunKeeps(Step(s, schedule[0]).0, b, schedule[1..]);
    }
  }

  /** What each way out of a step means, in any state the race can reach:
      a taken frame is the next unclaimed one; a failed exchange means someone
      else's succeeded since this taker looked; an empty answer means less
      than a frame is left. */
  lemma OutcomeMeans(s: State, b: Bump, id: nat)
    requires Inv(s, b)
    ensures var (s', out) := Step(s, id);
            match out
            case Took(n) => n == FrameAt(b.next, |s.grants|) && s'.grants == s.grants + [Grant(id, n)]
            case Retry => exists j :: TakerOf(s, id).at <= j < |s.grants| && s.grants[j].who != id
            case Empty => !Fits(s'.next, s'.end)
            case Working => s'.grants == s.grants
  {
    assert TakerOk(s, b, id);
    match TakerOf(s, id)
    case Ready =>
    case GotNext(n, at) =>
      if !Fits(n, s.end) {
        EmptyMeans(b, at, |s.grants|);
      }
    case GotBoth(n, at) =>
      if s.next != n {
        assert s.grants[at].who != id;
      }
  }

  lemma EmptyMeans(b: Bump, at: nat, k: nat)
    requires at <= k && FrameAt(b.next, k) <= U64 && (b.next == 0 ==> k == 0)
    requires FrameAt(b.next, at) <= U64 && !Fits(Cursor(b.next, at), b.end)
    ensures !Fits(Cursor(b.next, k), b.end)
  {
    if at < k {
      FrameGrows(b.next, at, k);
    }
  }

  /** After one seed, whatever the interleaving, the frames handed out are
      2 MiB-aligned, pairwise disjoint, within the cap, and inside the span
      unless it touches the top. */
  lemma FramesExclusive(start: Address, bytes: Address, schedule: seq<nat>, i: nat, j: nat)
    requires i < |Run(Start(Seed(start, bytes)), schedule).grants|
    requires j < |Run(Start(Seed(start, bytes)), schedule).grants|
    ensures var g := Run(Start(Seed(start, bytes)), schedule).grants;
            && g[i].frame % FRAME == 0
            && (i != j ==> g[i].frame + FRAME <= g[j].frame || g[j].frame + FRAME <= g[i].frame)
            && g[i].frame < Seed(start, bytes).next + SPAN_MAX
            && (!TouchesTop(start, bytes) ==> Inside(g[i].frame, start, bytes))
  {
    hide Seed, Run, Fits, Inside, TouchesTop;
    var b := Seed(start, bytes);
    StartOk(b);
    RunKeeps(Start(b), b, schedule);
    var g := Run(Start(b), schedule).grants;
    assert g[i].frame == FrameAt(b.next, i) && g[j].frame == FrameAt(b.next, j);
    if i < j {
      FrameGrows(b.next, i, j);
    } else if j < i {
      FrameGrows(b.next, j, i);
    }
    InsideIff(start, bytes);
    Capped(start, bytes, g[i].frame);
  }

  lemma StartOk(b: Bump)
    ensures Inv(Start(b), b)
  {
    forall id: nat
      ensures TakerOk(Start(b), b, id)
    {
      assert TakerOf(Start(b), id) == Ready;
    }
  }

  /** Four megabytes less one byte at the top of the address space: the second
      of two takes hands out a frame that ends past the span. */
  lemma TopFrameOutside()
    ensures var start, bytes := 0xFFFF_FFFF_FFC0_0000, 0x3F_FFFF;
            var s := Run(Start(Seed(start, bytes)), [0, 0, 0, 0, 0, 0]);
            && TouchesTop(start, bytes)
            && s.grants == [Grant(0, start), Grant(0, U64 - FRAME)] && s.next == 0
            && !Inside(U64 - FRAME, start, bytes)
  {
    var start: Address, bytes: Address := 0xFFFF_FFFF_FFC0_0000, 0x3F_FFFF;
    var b := Seed(start, bytes);
    assert b == Bump(start, U64 - 1);
    var s0 := Start(b);
    var s3 := TakeAlone(s0, [0, 0, 0]);
    var s6 := TakeAlone(s3, []);
    assert [0, 0, 0] + [0, 0, 0] == [0, 0, 0, 0, 0, 0];
    assert [0, 0, 0] + [] == [0, 0, 0];
    assert s6.grants == [Grant(0, start), Grant(0, U64 - FRAME)];
  }

  /** Three steps of taker 0 with nobody in between are one take. */
  lemma TakeAlone(s: State, rest: seq<nat>) returns (t: State)
    requires TakerOf(s, 0) == Ready && Fits(s.next, s.end)
    ensures Run(s, [0, 0, 0] + rest) == Run(t, rest)
    ensures t.next == (s.next + FRAME) % U64 && t.end == s.end && t.grants == s.grants + [Grant(0, s.next)]
    ensures TakerOf(t, 0) == Ready
  {
    hide Fits;
    var s1 := Step(s, 0).0;
    var s2 := Step(s1, 0).0;
    t := Step(s2, 0).0;
    assert ([0, 0, 0] + rest)[1..] == [0, 0] + rest;
    assert ([0, 0] + rest)[1..] == [0] + rest;
    assert ([0] + rest)[1..] == rest;
    assert Run(s1, [0, 0] + rest) == Run(s2, [0] + rest) == Run(t, rest);
  }
}
