/** The arithmetic the device emulates for trapped memory instructions: the
    group-2 rotates, compare, and add and subtract with carry, at operand
    sizes of 1, 2, 4 and 8 bytes, each with the RFLAGS it leaves. */
module Alu {
  import opened Bits

  type Size = n: nat | n == 1 || n == 2 || n == 4 || n == 8 witness 1

  datatype Rotate = Rol | Ror | Rcl | Rcr

  function Width(size: Size): (w: nat)
    ensures w == 8 * size && 8 <= w <= 64
  {
    8 * size
  }

  /** The shift count, of which the processor looks at five or six bits. */
  function Amount(count: nat, size: Size): (n: nat)
    ensures n < 64
  {
    if size == 8 then count % 64 else count % 32
  }

  // ---- rotates ----

  /** `(v << k) | (v >> (m - k))` in a register of `bits` bits, of which the
      low `m` matter. */
  function Turned(v: nat, k: nat, m: nat, bits: nat): (r: nat)
    requires 0 < k < m
  {
    Or(Low(Shl(v, k), bits), Shr(v, m - k))
  }

  /** The same with the shifts the other way round. */
  function Unturned(v: nat, k: nat, m: nat, bits: nat): (r: nat)
    requires 0 < k < m
  {
    Or(Shr(v, k), Low(Shl(v, m - k), bits))
  }

  /** Operand and carry side by side, the carry on top. */
  function WithCarry(a: nat, cf: bool, w: nat): nat {
    Or(a, Shl(Bool(cf), w))
  }

  /** How far operand and carry together turn. */
  function Spin(count: nat, size: Size): (k: nat)
    ensures k <= Width(size)
  {
    Amount(count, size) % (Width(size) + 1)
  }

  lemma SpinPositive(count: nat, size: Size)
    ensures Spin(count, size) > 0 ==> Amount(count, size) > 0
    ensures 8 <= Width(size) <= 64
  {}

  /** Value of a rotate. */
  function RotateApply(cur: nat, count: nat, alu: Rotate, size: Size, cf: bool): (r: nat) {
    var w := Width(size);
    var a := Low(cur, w);
    var n := Amount(count, size);
    if n == 0 then a
    else
      match alu
      case Rol => var k := n % w; if k == 0 then a else Low(Turned(a, k, w, 64), w)
      case Ror => var k := n % w; if k == 0 then a else Low(Unturned(a, k, w, 64), w)
      case Rcl => var k := Spin(count, size); if k == 0 then a else Low(Low(Turned(WithCarry(a, cf, w), k, w + 1, 128), 64), w)
      case Rcr => var k := Spin(count, size); if k == 0 then a else Low(Low(Unturned(WithCarry(a, cf, w), k, w + 1, 128), 64), w)
  }

  /** Carry after a rotate. A zero count leaves the flags alone. */
  function RotateCarry(cur: nat, count: nat, result: nat, alu: Rotate, size: Size, cf: bool): (c: bool) {
    var w := Width(size);
    var a, r := Low(cur, w), Low(result, w);
    var n := Amount(count, size);
    if n == 0 then cf
    else
      match alu
      case Rol => if n % w == 0 then Bit(a, 0) else Bit(r, 0)
      case Ror => if n % w == 0 then Bit(a, w - 1) else Bit(r, w - 1)
      case Rcl => var k := Spin(count, size); if k == 0 then cf else Bit(Turned(WithCarry(a, cf, w), k, w + 1, 128), w)
      case Rcr => var k := Spin(count, size); if k == 0 then cf else Bit(Unturned(WithCarry(a, cf, w), k, w + 1, 128), w)
  }

  /** A rotation of an `m`-bit number, as arithmetic. */
  function RotL(v: nat, k: nat, m: nat): (r: nat)
    requires 0 < k < m
  {
    Shl(Low(v, m - k), k) + Shr(v, m - k)
  }

  function RotR(v: nat, k: nat, m: nat): (r: nat)
    requires 0 < k < m
  {
    Shl(Low(v, k), m - k) + Shr(v, k)
  }

  lemma RotLThenRotR(v: nat, k: nat, m: nat)
    requires 0 < k < m && v < Pow2(m)
    ensures RotL(v, k, m) < Pow2(m)
    ensures RotR(RotL(v, k, m), k, m) == v
  {
    hide Shl, Shr, Low;
    ShrBound(v, m, m - k);
    JoinBound(Low(v, m - k), m - k, k, Shr(v, m - k));
    Join(Low(v, m - k), k, Shr(v, m - k));
    SplitAt(v, m - k);
  }

  /** The machine's two shifts and an or, on the bits that matter. */
  lemma TurnedIsRotL(v: nat, k: nat, m: nat, bits: nat)
    requires 0 < k < m <= bits && v < Pow2(m)
    ensures Low(Turned(v, k, m, bits), m) == RotL(v, k, m)
  {
    hide Shl, Shr, Low, Or;
    ShrBound(v, m, m - k);
    LowJoin(v, k, 0, bits);
    var u := Low(v, bits - k);
    OrShifted(u, k, Shr(v, m - k));
    LowJoin(u, k, Shr(v, m - k), m);
    LowLow(v, bits - k, m - k);
  }

  lemma UnturnedIsRotR(v: nat, k: nat, m: nat, bits: nat)
    requires 0 < k < m <= bits && v < Pow2(m)
    ensures Low(Unturned(v, k, m, bits), m) == RotR(v, k, m)
  {
    hide Shl, Shr, Low, Or;
    ShrBound(v, m, k);
    LowJoin(v, m - k, 0, bits);
    var u := Low(v, bits - (m - k));
    OrCommutes(Shr(v, k), Shl(u, m - k));
    OrShifted(u, m - k, Shr(v, k));
    LowJoin(u, m - k, Shr(v, k), m);
    LowLow(v, bits - (m - k), k);
  }

  lemma OrShifted(x: nat, k: nat, y: nat)
    requires y < Pow2(k)
    ensures Or(Shl(x, k), y) == Shl(x, k) + y
  {
    OrDisjoint(x, k, y);
  }

  /** ROL by any count and then ROR by the same count gives the operand back. */
  lemma RolThenRor(cur: nat, count: nat, size: Size, cf: bool, cf': bool)
    ensures RotateApply(RotateApply(cur, count, Rol, size, cf), count, Ror, size, cf') == Low(cur, Width(size))
  {
    hide Low, Turned, Unturned, RotL, RotR;
    var w := Width(size);
    var a := Low(cur, w);
    LowSmall(a, w);
    var n := Amount(count, size);
    var k := n % w;
    if n > 0 && k > 0 {
      TurnedIsRotL(a, k, w, 64);
      RotLThenRotR(a, k, w);
      var b := RotL(a, k, w);
      LowSmall(b, w);
      UnturnedIsRotR(b, k, w, 64);
    }
  }

  /** A number below 2^(w+1) is its low `w` bits with bit `w` as the carry. */
  lemma CarryOnTop(x: nat, w: nat)
    requires x < Pow2(w + 1)
    ensures WithCarry(Low(x, w), Bit(x, w), w) == x
  {
    hide Low, Shl, Or;
    ShrBound(x, w + 1, w);
    assert Pow2(1) == 2;
    BitQuotient(x, w);
    SplitAt(x, w);
    OrCommutes(Low(x, w), Shl(Bool(Bit(x, w)), w));
    OrShifted(Bool(Bit(x, w)), w, Low(x, w));
  }

  lemma CarryParts(a: nat, cf: bool, w: nat)
    requires a < Pow2(w)
    ensures WithCarry(a, cf, w) < Pow2(w + 1)
    ensures Low(WithCarry(a, cf, w), w) == a && Bit(WithCarry(a, cf, w), w) == cf
  {
    hide Low, Shl, Or;
    OrCommutes(a, Shl(Bool(cf), w));
    OrShifted(Bool(cf), w, a);
    JoinBound(Bool(cf), 1, w, a);
    Join(Bool(cf), w, a);
    BitQuotient(WithCarry(a, cf, w), w);
  }

  lemma TurnedParts(v: nat, k: nat, w: nat)
    requires 0 < k <= w <= 64 && v < Pow2(w + 1)
    ensures RotL(v, k, w + 1) < Pow2(w + 1)
    ensures Low(Low(Turned(v, k, w + 1, 128), 64), w) == Low(RotL(v, k, w + 1), w)
    ensures Bit(Turned(v, k, w + 1, 128), w) == Bit(RotL(v, k, w + 1), w)
  {
    hide Low, Turned, RotL, Bit;
    TurnedIsRotL(v, k, w + 1, 128);
    var t := Turned(v, k, w + 1, 128);
    LowLow(t, 64, w);
    LowLow(t, w + 1, w);
    BitLow(t, w, w + 1);
  }

  lemma UnturnedParts(v: nat, k: nat, w: nat)
    requires 0 < k <= w <= 64 && v < Pow2(w + 1)
    ensures Low(Low(Unturned(v, k, w + 1, 128), 64), w) == Low(RotR(v, k, w + 1), w)
    ensures Bit(Unturned(v, k, w + 1, 128), w) == Bit(RotR(v, k, w + 1), w)
  {
    hide Low, Unturned, RotR, Bit;
    UnturnedIsRotR(v, k, w + 1, 128);
    var u := Unturned(v, k, w + 1, 128);
    LowLow(u, 64, w);
    LowLow(u, w + 1, w);
    BitLow(u, w, w + 1);
  }

  /** RCL is a left rotation of operand and carry together. */
  lemma RclIsRotL(cur: nat, count: nat, size: Size, cf: bool)
    requires Spin(count, size) > 0
    ensures var w := Width(size);
            var x := RotL(WithCarry(Low(cur, w), cf, w), Spin(count, size), w + 1);
            var r := RotateApply(cur, count, Rcl, size, cf);
            && WithCarry(Low(cur, w), cf, w) < Pow2(w + 1) && x < Pow2(w + 1)
            && r == Low(x, w) && RotateCarry(cur, count, r, Rcl, size, cf) == Bit(x, w)
  {
    hide Low, Turned, Unturned, RotL, WithCarry, Bit, Spin, Width, Amount;
    var w := Width(size);
    SpinPositive(count, size);
    CarryParts(Low(cur, w), cf, w);
    TurnedParts(WithCarry(Low(cur, w), cf, w), Spin(count, size), w);
  }

  /** RCR is a right rotation of operand and carry together. */
  lemma RcrIsRotR(x: nat, count: nat, size: Size)
    requires Spin(count, size) > 0 && x < Pow2(Width(size) + 1)
    ensures var w := Width(size);
            var y := RotR(x, Spin(count, size), w + 1);
            var r := RotateApply(Low(x, w), count, Rcr, size, Bit(x, w));
            r == Low(y, w) && RotateCarry(Low(x, w), count, r, Rcr, size, Bit(x, w)) == Bit(y, w)
  {
    hide Low, Turned, Unturned, RotR, WithCarry, Bit, Spin, Width, Amount;
    var w := Width(size);
    SpinPositive(count, size);
    CarryOnTop(x, w);
    LowSmall(Low(x, w), w);
    UnturnedParts(x, Spin(count, size), w);
  }

  /** RCL by any count, then RCR by the same count fed with the carry RCL
      left, restores operand and carry. */
  lemma RclThenRcr(cur: nat, count: nat, size: Size, cf: bool)
    ensures var r := RotateApply(cur, count, Rcl, size, cf);
            var c := RotateCarry(cur, count, r, Rcl, size, cf);
            var r' := RotateApply(r, count, Rcr, size, c);
            r' == Low(cur, Width(size)) && RotateCarry(r, count, r', Rcr, size, c) == cf
  {
    hide Low, Turned, Unturned, RotL, RotR, WithCarry, Bit, Spin, Amount, Width;
    var w := Width(size);
    if Spin(count, size) == 0 {
      LowSmall(Low(cur, w), w);
    } else {
      hide RotateApply, RotateCarry;
      var v := WithCarry(Low(cur, w), cf, w);
      SpinPositive(count, size);
      RclIsRotL(cur, count, size, cf);
      RcrIsRotR(RotL(v, Spin(count, size), w + 1), count, size);
      RotLThenRotR(v, Spin(count, size), w + 1);
      CarryParts(Low(cur, w), cf, w);
    }
  }
}
