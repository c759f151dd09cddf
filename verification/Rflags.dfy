/** RFLAGS after the emulated instructions, and what the condition codes make
    of them (Appendix B of the Intel SDM, volume 1). */
module Rflags {
  import opened Bits
  import opened Alu

  const CF: bv64 := 0x001
  const PF: bv64 := 0x004
  const AF: bv64 := 0x010
  const ZF: bv64 := 0x040
  const SF: bv64 := 0x080
  const OF: bv64 := 0x800

  predicate Has(f: bv64, flag: bv64) {
    f & flag != 0
  }

  function With(f: bv64, flag: bv64, on: bool): bv64 {
    if on then f | flag else f
  }

  /** How many of the low `bits` bits are ones. */
  function Ones(x: nat, bits: nat): (n: nat)
    ensures n <= bits
  {
    if bits == 0 then 0 else x % 2 + Ones(x / 2, bits - 1)
  }

  predicate Sign(x: nat, size: Size) {
    Bit(x, Width(size) - 1)
  }

  const ARITHMETIC: bv64 := 0x8D5

  /** The bits other than the arithmetic flags and bit 1 agree. */
  predicate SameElse(f: bv64, g: bv64) {
    f & !(ARITHMETIC | 2) == g & !(ARITHMETIC | 2)
  }

  /** The arithmetic flags rewritten, bit 1 set, the other bits kept. */
  function Arithmetic(was: bv64, zf: bool, sf: bool, pf: bool): (f: bv64)
    ensures (Has(f, ZF) <==> zf) && (Has(f, SF) <==> sf) && !Has(f, CF) && !Has(f, OF)
  {
    With(With(With((was | 2) & !ARITHMETIC, ZF, zf), SF, sf), PF, pf)
  }

  lemma ArithmeticBits(was: bv64, zf: bool, sf: bool, pf: bool)
    ensures var f := Arithmetic(was, zf, sf, pf);
            && (Has(f, PF) <==> pf) && !Has(f, AF) && Has(f, 2)
            && SameElse(f, was)
  {}

  /** ZF, SF and PF from a result; CF, OF and AF cleared; bit 1 set. */
  function TestFlags(was: bv64, result: nat, size: Size): (f: bv64)
    ensures Has(f, ZF) <==> Low(result, Width(size)) == 0
    ensures Has(f, SF) <==> Sign(Low(result, Width(size)), size)
    ensures !Has(f, CF) && !Has(f, OF)
  {
    var r := Low(result, Width(size));
    Arithmetic(was, r == 0, Sign(r, size), Ones(r, 8) % 2 == 0)
  }

  /** Everything TEST leaves: the six arithmetic flags, bit 1, and all other
      bits as they were. */
  lemma TestFlagBits(was: bv64, result: nat, size: Size)
    ensures var r := Low(result, Width(size));
            var f := TestFlags(was, result, size);
            && (Has(f, ZF) <==> r == 0) && (Has(f, SF) <==> Sign(r, size)) && (Has(f, PF) <==> Ones(r, 8) % 2 == 0)
            && !Has(f, CF) && !Has(f, OF) && !Has(f, AF) && Has(f, 2)
            && SameElse(f, was)
  {
    hide Low, Sign, Ones, Arithmetic, Has, SameElse;
    var r := Low(result, Width(size));
    ArithmeticBits(was, r == 0, Sign(r, size), Ones(r, 8) % 2 == 0);
  }

  // ---- rotates ----

  /** The overflow flag of a rotate by one. */
  predicate RotateOverflow(r: nat, cf: bool, alu: Rotate, size: Size) {
    match alu
    case Rol => Sign(r, size) != cf
    case Rcl => Sign(r, size) != cf
    case Ror => Sign(r, size) != Bit(r, Width(size) - 2)
    case Rcr => Sign(r, size) != Bit(r, Width(size) - 2)
  }

  /** CF replaced, OF replaced when it is defined, bit 1 set. */
  function Replaced(was: bv64, cf: bool, single: bool, of: bool): (f: bv64)
    ensures Has(f, CF) <==> cf
    ensures single ==> (Has(f, OF) <==> of)
  {
    var f := With((was | 2) & !CF, CF, cf);
    if single then With(f & !OF, OF, of) else f
  }

  /** Flags after a rotate: the carry always, OF for a count of one. */
  function RotateFlags(was: bv64, cur: nat, count: nat, result: nat, alu: Rotate, size: Size): (f: bv64) {
    var n := Amount(count, size);
    if n == 0 then was
    else
      var cf := RotateCarry(cur, count, result, alu, size, Has(was, CF));
      Replaced(was, cf, n == 1, RotateOverflow(Low(result, Width(size)), cf, alu, size))
  }

  lemma RotateFlagsCarry(was: bv64, cur: nat, count: nat, result: nat, alu: Rotate, size: Size)
    ensures Has(RotateFlags(was, cur, count, result, alu, size), CF)
            <==> RotateCarry(cur, count, result, alu, size, Has(was, CF))
  {
    hide Low, Bit, Has, Replaced, RotateOverflow, Turned, Unturned, WithCarry;
  }

  /** RCL and then RCR by the same count, each reading CF from the flags the
      one before it left: operand and carry come back. */
  lemma RotateThroughCarryRoundTrip(was: bv64, cur: nat, count: nat, size: Size)
    ensures var r := RotateApply(cur, count, Rcl, size, Has(was, CF));
            var f := RotateFlags(was, cur, count, r, Rcl, size);
            var r' := RotateApply(r, count, Rcr, size, Has(f, CF));
            var f' := RotateFlags(f, r, count, r', Rcr, size);
            r' == Low(cur, Width(size)) && Has(f', CF) == Has(was, CF)
  {
    hide RotateApply, RotateCarry, RotateFlags, Has, Low;
    RclThenRcr(cur, count, size, Has(was, CF));
    var r := RotateApply(cur, count, Rcl, size, Has(was, CF));
    var f := RotateFlags(was, cur, count, r, Rcl, size);
    RotateFlagsCarry(was, cur, count, r, Rcl, size);
    RotateFlagsCarry(f, r, count, RotateApply(r, count, Rcr, size, Has(f, CF)), Rcr, size);
  }

  // ---- compare ----

  /** Half the modulus: the weight of the sign bit. */
  function Half(size: Size): (h: nat)
    ensures h > 0 && Pow2(Width(size)) == 2 * h
  {
    Pow2(Width(size) - 1)
  }

  /** The two's-complement reading of a masked operand. */
  function Signed(x: nat, size: Size): int {
    if x < Half(size) then x else x - 2 * Half(size)
  }

  lemma SignIsHalf(x: nat, size: Size)
    requires x < Pow2(Width(size))
    ensures Sign(x, size) <==> x >= Half(size)
  {
    hide Low, Shl;
    var k := Width(size) - 1;
    BitQuotient(x, k);
    ShrBound(x, k + 1, k);
    SplitAt(x, k);
    assert Pow2(1) == 2;
    ShlOne(k);
  }

  lemma ShlOne(k: nat)
    ensures Shl(1, k) == Pow2(k) && Shl(0, k) == 0
  {}

  function CmpFlags(was: bv64, left: nat, right: nat, size: Size): (f: bv64) {
    var a, b := Low(left, Width(size)), Low(right, Width(size));
    var r := Difference(a, b, size);
    var f := With(TestFlags(was, r, size), CF, a < b);
    With(f, OF, Sign(a, size) != Sign(b, size) && Sign(r, size) != Sign(a, size))
  }

  /** Wrapping subtraction of two masked operands. */
  function Difference(a: nat, b: nat, size: Size): (r: nat)
    requires a < Pow2(Width(size)) && b < Pow2(Width(size))
    ensures r < Pow2(Width(size))
  {
    if a >= b then a - b else a - b + Pow2(Width(size))
  }

  /** Does condition code `cc` (1 for opcode 0x40, up to 16) hold? */
  predicate CcTaken(cc: nat, f: bv64) {
    var cf, pf, zf, sf, of := Has(f, CF), Has(f, PF), Has(f, ZF), Has(f, SF), Has(f, OF);
    if cc == 0 || cc > 16 then false
    else
      match cc - 1
      case 0 => of
      case 1 => !of
      case 2 => cf
      case 3 => !cf
      case 4 => zf
      case 5 => !zf
      case 6 => cf || zf
      case 7 => !cf && !zf
      case 8 => sf
      case 9 => !sf
      case 10 => pf
      case 11 => !pf
      case 12 => sf != of
      case 13 => sf == of
      case 14 => zf || sf != of
      case _ => !zf && sf == of
  }

  /** The sign formula is signed overflow of the subtraction. */
  lemma SignedDifference(a: nat, b: nat, size: Size)
    requires a < Pow2(Width(size)) && b < Pow2(Width(size))
    ensures var r := Difference(a, b, size);
            var d := Signed(a, size) - Signed(b, size);
            (Sign(a, size) != Sign(b, size) && Sign(r, size) != Sign(a, size)) <==> !(0 <= d + Half(size) < 2 * Half(size))
  {
    hide Sign, Half;
    SignIsHalf(a, size);
    SignIsHalf(b, size);
    SignIsHalf(Difference(a, b, size), size);
  }

  /** What a compare leaves: CF is the unsigned borrow, OF says that the signed
      difference does not fit, and ZF, SF and PF describe the difference. */
  lemma CmpFlagBits(was: bv64, left: nat, right: nat, size: Size)
    ensures var a, b := Low(left, Width(size)), Low(right, Width(size));
            var r := Difference(a, b, size);
            var f := CmpFlags(was, left, right, size);
            && (Has(f, CF) <==> a < b) && (Has(f, ZF) <==> a == b) && (Has(f, SF) <==> r >= Half(size))
            && (Has(f, OF) <==> !(0 <= Signed(a, size) - Signed(b, size) + Half(size) < 2 * Half(size)))
            && (Has(f, PF) <==> Ones(r, 8) % 2 == 0)
  {
    hide Low, Half, Sign, Ones, CmpFlags, Has;
    var a, b := Low(left, Width(size)), Low(right, Width(size));
    CmpFlagRaw(was, left, right, size);
    SignIsHalf(Difference(a, b, size), size);
    SignedDifference(a, b, size);
  }

  lemma CmpFlagRaw(was: bv64, left: nat, right: nat, size: Size)
    ensures var a, b := Low(left, Width(size)), Low(right, Width(size));
            var r := Difference(a, b, size);
            var f := CmpFlags(was, left, right, size);
            && (Has(f, CF) <==> a < b) && (Has(f, ZF) <==> r == 0) && (Has(f, SF) <==> Sign(r, size))
            && (Has(f, OF) <==> Sign(a, size) != Sign(b, size) && Sign(r, size) != Sign(a, size))
            && (Has(f, PF) <==> Ones(r, 8) % 2 == 0)
  {
    hide Low, TestFlags, Difference, Sign, Ones;
    var r := Difference(Low(left, Width(size)), Low(right, Width(size)), size);
    LowSmall(r, Width(size));
    TestFlagBits(was, r, size);
  }

  /** After the emulated CMP each condition code is the comparison it is
      named for: E, NE, B, AE, BE, A on the operands as numbers, L, GE, LE, G
      on their two's-complement readings. */
  lemma CompareCodes(was: bv64, left: nat, right: nat, size: Size)
    ensures var a, b := Low(left, Width(size)), Low(right, Width(size));
            var f := CmpFlags(was, left, right, size);
            && (CcTaken(5, f) <==> a == b) && (CcTaken(6, f) <==> a != b)
            && (CcTaken(3, f) <==> a < b) && (CcTaken(4, f) <==> a >= b)
            && (CcTaken(7, f) <==> a <= b) && (CcTaken(8, f) <==> a > b)
            && (CcTaken(13, f) <==> Signed(a, size) < Signed(b, size))
            && (CcTaken(14, f) <==> Signed(a, size) >= Signed(b, size))
            && (CcTaken(15, f) <==> Signed(a, size) <= Signed(b, size))
            && (CcTaken(16, f) <==> Signed(a, size) > Signed(b, size))
  {
    hide Low, CmpFlags, Has, Half, Ones;
    CmpFlagBits(was, left, right, size);
  }

  // ---- add and subtract with carry ----

  function AdcFlags(was: bv64, left: nat, right: nat, size: Size): (f: bv64) {
    var a, b, c := Low(left, Width(size)), Low(right, Width(size)), Bool(Has(was, CF));
    var sum := a + b + c;
    var r := Low(sum, Width(size));
    var f := With(TestFlags(was, r, size), CF, sum >= Pow2(Width(size)));
    With(f, OF, Signed(a, size) + Signed(b, size) + c != Signed(r, size))
  }

  function SbbFlags(was: bv64, left: nat, right: nat, size: Size): (f: bv64) {
    var a, b, c := Low(left, Width(size)), Low(right, Width(size)), Bool(Has(was, CF));
    var r := Low(a + 2 * Pow2(Width(size)) - b - c, Width(size));
    var f := With(TestFlags(was, r, size), CF, a < b + c);
    With(f, OF, Signed(a, size) - Signed(b, size) - c != Signed(r, size))
  }

  /** The stored result of ADC, and of SBB. */
  function AdcApply(left: nat, right: nat, size: Size, cf: bool): (r: nat)
    ensures r < Pow2(Width(size))
  {
    Low(left + right + Bool(cf), Width(size))
  }

  function SbbApply(left: nat, right: nat, size: Size, cf: bool): (r: nat)
    ensures r < Pow2(Width(size))
  {
    Low(Low(left, Width(size)) + 2 * Pow2(Width(size)) - Low(right, Width(size)) - Bool(cf), Width(size))
  }

  /** One limb: operands and carry in, result and carry out. */
  lemma AdcLimb(was: bv64, left: nat, right: nat, size: Size)
    ensures Low(left, Width(size)) + Low(right, Width(size)) + Bool(Has(was, CF))
            == AdcApply(left, right, size, Has(was, CF))
               + Bool(Has(AdcFlags(was, left, right, size), CF)) * Pow2(Width(size))
  {
    hide Low, Signed, TestFlags;
    var w := Width(size);
    var a, b, c := Low(left, w), Low(right, w), Bool(Has(was, CF));
    LowCarry(a + b + c, w);
    SplitAt(left, w);
    SplitAt(right, w);
    ShlAdd(Shr(left, w), Shr(right, w), w);
    LowSkips(Shr(left, w) + Shr(right, w), w, a + b + c);
    AdcCarry(was, left, right, size);
  }

  lemma AdcCarry(was: bv64, left: nat, right: nat, size: Size)
    ensures Has(AdcFlags(was, left, right, size), CF) <==>
            Low(left, Width(size)) + Low(right, Width(size)) + Bool(Has(was, CF)) >= Pow2(Width(size))
  {
    hide Low, Signed, TestFlags;
  }

  /** A carry-adjusted sum reads as the signed sum exactly when that fits. */
  lemma SignedSum(a: nat, b: nat, c: nat, r: nat, size: Size)
    requires a < 2 * Half(size) && b < 2 * Half(size) && c <= 1 && r < 2 * Half(size)
    requires a + b + c == r + if a + b + c >= 2 * Half(size) then 2 * Half(size) else 0
    ensures var sum := Signed(a, size) + Signed(b, size) + c;
            sum != Signed(r, size) <==> !(0 <= sum + Half(size) < 2 * Half(size))
  {
    hide Half;
  }

  /** OF says that the signed sum does not fit the operand size. */
  lemma AdcOverflow(was: bv64, left: nat, right: nat, size: Size)
    ensures var sum := Signed(Low(left, Width(size)), size) + Signed(Low(right, Width(size)), size) + Bool(Has(was, CF));
            Has(AdcFlags(was, left, right, size), OF) <==> !(0 <= sum + Half(size) < 2 * Half(size))
  {
    hide Low, TestFlags, Half, Signed, AdcFlags, Has, Bool, Width;
    var w := Width(size);
    var a, b, c := Low(left, w), Low(right, w), Bool(Has(was, CF));
    LowCarry(a + b + c, w);
    SignedSum(a, b, c, Low(a + b + c, w), size);
    AdcOverflowFlag(was, left, right, size);
  }

  lemma AdcOverflowFlag(was: bv64, left: nat, right: nat, size: Size)
    ensures var a, b, c := Low(left, Width(size)), Low(right, Width(size)), Bool(Has(was, CF));
            Has(AdcFlags(was, left, right, size), OF) <==>
            Signed(a, size) + Signed(b, size) + c != Signed(Low(a + b + c, Width(size)), size)
  {
    hide Low, Signed, TestFlags;
  }

  /** Subtraction with borrow on masked operands. */
  lemma BorrowLow(a: nat, b: nat, c: nat, w: nat)
    requires a < Pow2(w) && b < Pow2(w) && c <= 1
    ensures a + (if a < b + c then Pow2(w) else 0) == b + c + Low(a + 2 * Pow2(w) - b - c, w)
  {
    hide Low, Shl;
    ShlOne(w);
    if a < b + c {
      LowSkips(1, w, a + Pow2(w) - b - c);
      LowSmall(a + Pow2(w) - b - c, w);
    } else {
      ShlAdd(1, 1, w);
      LowSkips(2, w, a - b - c);
      LowSmall(a - b - c, w);
    }
  }

  lemma SbbLimb(was: bv64, left: nat, right: nat, size: Size)
    ensures Low(left, Width(size)) + Bool(Has(SbbFlags(was, left, right, size), CF)) * Pow2(Width(size))
            == Low(right, Width(size)) + Bool(Has(was, CF)) + SbbApply(left, right, size, Has(was, CF))
  {
    hide Low, SbbFlags, Has, Pow2;
    SbbCarry(was, left, right, size);
    BorrowLow(Low(left, Width(size)), Low(right, Width(size)), Bool(Has(was, CF)), Width(size));
  }

  lemma SbbCarry(was: bv64, left: nat, right: nat, size: Size)
    ensures Has(SbbFlags(was, left, right, size), CF) <==>
            Low(left, Width(size)) < Low(right, Width(size)) + Bool(Has(was, CF))
  {
    hide Low, Signed, TestFlags;
  }

  /** A borrow-adjusted difference reads as the signed difference exactly when
      that fits. */
  lemma SignedBorrow(a: nat, b: nat, c: nat, r: nat, size: Size)
    requires a < 2 * Half(size) && b < 2 * Half(size) && c <= 1 && r < 2 * Half(size)
    requires a + (if a < b + c then 2 * Half(size) else 0) == b + c + r
    ensures var d := Signed(a, size) - Signed(b, size) - c;
            d != Signed(r, size) <==> !(0 <= d + Half(size) < 2 * Half(size))
  {
    hide Half;
  }

  /** OF says that the signed difference does not fit the operand size. */
  lemma SbbOverflow(was: bv64, left: nat, right: nat, size: Size)
    ensures var d := Signed(Low(left, Width(size)), size) - Signed(Low(right, Width(size)), size) - Bool(Has(was, CF));
            Has(SbbFlags(was, left, right, size), OF) <==> !(0 <= d + Half(size) < 2 * Half(size))
  {
    hide Low, TestFlags, Half, Signed, SbbFlags, Has, Bool, Width;
    var w := Width(size);
    var a, b, c := Low(left, w), Low(right, w), Bool(Has(was, CF));
    BorrowLow(a, b, c, w);
    SignedBorrow(a, b, c, Low(a + 2 * Pow2(w) - b - c, w), size);
    SbbOverflowFlag(was, left, right, size);
  }

  lemma SbbOverflowFlag(was: bv64, left: nat, right: nat, size: Size)
    ensures var a, b, c := Low(left, Width(size)), Low(right, Width(size)), Bool(Has(was, CF));
            Has(SbbFlags(was, left, right, size), OF) <==>
            Signed(a, size) - Signed(b, size) - c != Signed(Low(a + 2 * Pow2(Width(size)) - b - c, Width(size)), size)
  {
    hide Low, Signed, TestFlags;
  }

  /** A number kept in limbs of one operand each, low limb first. */
  function Value(xs: seq<nat>, size: Size): nat {
    if xs == [] then 0 else Low(xs[0], Width(size)) + Shl(Value(xs[1..], size), Width(size))
  }

  /** A carry out of the `n`-th limb. */
  function Carried(c: nat, n: nat, size: Size): nat {
    if n == 0 then c else Shl(Carried(c, n - 1, size), Width(size))
  }

  /** ADC limb by limb, each reading the carry of the one below. */
  function AdcChain(was: bv64, xs: seq<nat>, ys: seq<nat>, size: Size): (r: (seq<nat>, bv64))
    requires |xs| == |ys|
    ensures |r.0| == |xs|
    decreases |xs|
  {
    if xs == [] then ([], was)
    else
      var z := AdcApply(xs[0], ys[0], size, Has(was, CF));
      var (zs, f) := AdcChain(AdcFlags(was, xs[0], ys[0], size), xs[1..], ys[1..], size);
      ([z] + zs, f)
  }

  function SbbChain(was: bv64, xs: seq<nat>, ys: seq<nat>, size: Size): (r: (seq<nat>, bv64))
    requires |xs| == |ys|
    ensures |r.0| == |xs|
    decreases |xs|
  {
    if xs == [] then ([], was)
    else
      var z := SbbApply(xs[0], ys[0], size, Has(was, CF));
      var (zs, f) := SbbChain(SbbFlags(was, xs[0], ys[0], size), xs[1..], ys[1..], size);
      ([z] + zs, f)
  }

  /** Shifting both sides of a limb equation. */
  lemma ShiftSum(p: nat, q: nat, x: nat, y: nat, c: nat, w: nat)
    requires p + q == x + y + c && c <= 1
    ensures Shl(p, w) + Shl(q, w) == Shl(x, w) + Shl(y, w) + c * Pow2(w)
  {
    ShlAdd(p, q, w);
    ShlAdd(x, y + c, w);
    ShlAdd(y, c, w);
  }

  lemma ValueCons(z: nat, zs: seq<nat>, size: Size)
    requires z < Pow2(Width(size))
    ensures Value([z] + zs, size) == z + Shl(Value(zs, size), Width(size))
  {
    hide Low, Shl;
    LowSmall(z, Width(size));
    assert ([z] + zs)[1..] == zs;
  }

  /** A chain of ADC adds numbers of any length, the last carry included. */
  lemma {:induction false} AdcChainAdds(was: bv64, xs: seq<nat>, ys: seq<nat>, size: Size)
    requires |xs| == |ys|
    ensures var (zs, f) := AdcChain(was, xs, ys, size);
            Value(zs, size) + Carried(Bool(Has(f, CF)), |xs|, size)
            == Value(xs, size) + Value(ys, size) + Bool(Has(was, CF))
    decreases |xs|
  {
    hide Low, AdcApply, AdcFlags, Has, Shl, Pow2;
    if xs != [] {
      var f1 := AdcFlags(was, xs[0], ys[0], size);
      AdcLimb(was, xs[0], ys[0], size);
      AdcChainAdds(f1, xs[1..], ys[1..], size);
      var (zs, f) := AdcChain(f1, xs[1..], ys[1..], size);
      ValueCons(AdcApply(xs[0], ys[0], size, Has(was, CF)), zs, size);
      ShiftSum(Value(zs, size), Carried(Bool(Has(f, CF)), |xs| - 1, size),
               Value(xs[1..], size), Value(ys[1..], size), Bool(Has(f1, CF)), Width(size));
    }
  }

  /** A chain of SBB subtracts numbers of any length, the last borrow included. */
  lemma {:induction false} SbbChainSubtracts(was: bv64, xs: seq<nat>, ys: seq<nat>, size: Size)
    requires |xs| == |ys|
    ensures var (zs, f) := SbbChain(was, xs, ys, size);
            Value(xs, size) + Carried(Bool(Has(f, CF)), |xs|, size)
            == Value(ys, size) + Value(zs, size) + Bool(Has(was, CF))
    decreases |xs|
  {
    hide Low, SbbApply, SbbFlags, Has, Shl, Pow2;
    if xs != [] {
      var f1 := SbbFlags(was, xs[0], ys[0], size);
      SbbLimb(was, xs[0], ys[0], size);
      SbbChainSubtracts(f1, xs[1..], ys[1..], size);
      var (zs, f) := SbbChain(f1, xs[1..], ys[1..], size);
      ValueCons(SbbApply(xs[0], ys[0], size, Has(was, CF)), zs, size);
      ShiftSum(Value(xs[1..], size), Carried(Bool(Has(f, CF)), |xs| - 1, size),
               Value(ys[1..], size), Value(zs, size), Bool(Has(f1, CF)), Width(size));
    }
  }
}
