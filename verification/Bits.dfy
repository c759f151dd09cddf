/** Machine words as natural numbers, bit by bit. */
module Bits {
  function Pow2(n: nat): (p: nat)
    ensures p > 0
  {
    if n == 0 then 1 else 2 * Pow2(n - 1)
  }

  function Bool(b: bool): (n: nat)
    ensures n <= 1
  {
    if b then 1 else 0
  }

  /** Bit `i` of `x`. */
  predicate Bit(x: nat, i: nat) {
    if i == 0 then x % 2 == 1 else Bit(x / 2, i - 1)
  }

  function Or(x: nat, y: nat): (r: nat)
    decreases x + y
  {
    if x == 0 && y == 0 then 0 else Bool(x % 2 == 1 || y % 2 == 1) + 2 * Or(x / 2, y / 2)
  }

  function And(x: nat, y: nat): (r: nat)
    ensures r <= x
    decreases x
  {
    if x == 0 then 0 else Bool(x % 2 == 1 && y % 2 == 1) + 2 * And(x / 2, y / 2)
  }

  function Xor(x: nat, y: nat): (r: nat)
    decreases x + y
  {
    if x == 0 && y == 0 then 0 else Bool(x % 2 != y % 2) + 2 * Xor(x / 2, y / 2)
  }

  /** `x | (1 << i)` and `x & !(1 << i)`. */
  function SetBit(x: nat, i: nat): (r: nat) {
    if i == 0 then x / 2 * 2 + 1 else x % 2 + 2 * SetBit(x / 2, i - 1)
  }

  function ClearBit(x: nat, i: nat): (r: nat) {
    if i == 0 then x / 2 * 2 else x % 2 + 2 * ClearBit(x / 2, i - 1)
  }

  // ---- powers of two ----

  lemma {:induction false} Pow2Add(a: nat, b: nat)
    ensures Pow2(a + b) == Pow2(a) * Pow2(b)
  {
    if a > 0 {
      Pow2Add(a - 1, b);
      assert Pow2(a + b) == 2 * Pow2(a - 1 + b);
      assert Pow2(a) * Pow2(b) == 2 * (Pow2(a - 1) * Pow2(b));
    }
  }

  lemma {:induction false} Pow2Grows(a: nat, b: nat)
    requires a <= b
    ensures Pow2(a) <= Pow2(b)
  {
    if a < b {
      Pow2Grows(a, b - 1);
    }
  }

  /** Left shift, right shift, and the low bits that `& mask` keeps. */
  function Shl(v: nat, k: nat): nat {
    NatOps(v, Pow2(k));
    v * Pow2(k)
  }

  function Shr(v: nat, k: nat): nat {
    NatOps(v, Pow2(k));
    v / Pow2(k)
  }

  lemma NatOps(x: nat, y: nat)
    requires y > 0
    ensures x * y >= 0 && x / y >= 0
  {}

  function Low(v: nat, k: nat): (r: nat)
    ensures r < Pow2(k)
  {
    v % Pow2(k)
  }

  lemma SplitAt(v: nat, k: nat)
    ensures v == Shl(Shr(v, k), k) + Low(v, k)
  {}

  lemma Join(hi: nat, k: nat, lo: nat)
    requires lo < Pow2(k)
    ensures Shr(Shl(hi, k) + lo, k) == hi && Low(Shl(hi, k) + lo, k) == lo
  {
    DivUnique(Shl(hi, k) + lo, Pow2(k), hi, lo);
  }

  lemma JoinBound(hi: nat, a: nat, k: nat, lo: nat)
    requires hi < Pow2(a) && lo < Pow2(k)
    ensures Shl(hi, k) + lo < Pow2(a + k)
  {
    Pow2Add(a, k);
    MulMono(hi + 1, Pow2(a), Pow2(k));
  }

  lemma MulMono(x: nat, y: nat, d: nat)
    requires x <= y
    ensures x * d <= y * d
  {}

  lemma ShrBound(v: nat, m: nat, k: nat)
    requires k <= m && v < Pow2(m)
    ensures Shr(v, k) < Pow2(m - k)
  {
    hide Shr;
    SplitAt(v, k);
    Pow2Add(m - k, k);
    if Shr(v, k) >= Pow2(m - k) {
      MulMono(Pow2(m - k), Shr(v, k), Pow2(k));
    }
  }

  lemma ShlShl(v: nat, a: nat, b: nat)
    ensures Shl(Shl(v, a), b) == Shl(v, a + b)
  {
    Pow2Add(a, b);
    MulAssoc(v, Pow2(a), Pow2(b));
  }

  lemma MulAssoc(x: nat, y: nat, z: nat)
    ensures x * y * z == x * (y * z)
  {}

  lemma ShlAdd(x: nat, y: nat, k: nat)
    ensures Shl(x + y, k) == Shl(x, k) + Shl(y, k)
  {}

  lemma LowSmall(v: nat, k: nat)
    requires v < Pow2(k)
    ensures Low(v, k) == v && Shr(v, k) == 0
  {
    DivUnique(v, Pow2(k), 0, v);
  }

  /** The low `m` bits of a shifted number with something put below it. */
  lemma LowJoin(u: nat, k: nat, y: nat, m: nat)
    requires k <= m && y < Pow2(k)
    ensures Low(Shl(u, k) + y, m) == Shl(Low(u, m - k), k) + y
  {
    hide Shl, Shr, Low;
    var hi, lo := Shr(u, m - k), Low(u, m - k);
    SplitAt(u, m - k);
    ShlAdd(Shl(hi, m - k), lo, k);
    ShlShl(hi, m - k, k);
    JoinBound(lo, m - k, k, y);
    Join(hi, m, Shl(lo, k) + y);
  }

  /** Whole multiples of 2^w do not show in the low `w` bits. */
  lemma LowSkips(h: nat, w: nat, v: nat)
    ensures Low(Shl(h, w) + v, w) == Low(v, w)
  {
    hide Shl, Shr, Low;
    SplitAt(v, w);
    ShlAdd(h, Shr(v, w), w);
    Join(h + Shr(v, w), w, Low(v, w));
  }

  /** A sum below 2^(w+1) is its low `w` bits and a carry. */
  lemma LowCarry(v: nat, w: nat)
    requires v < 2 * Pow2(w)
    ensures v == Low(v, w) + if v >= Pow2(w) then Pow2(w) else 0
  {
    if v >= Pow2(w) {
      DivUnique(v, Pow2(w), 1, v - Pow2(w));
    } else {
      DivUnique(v, Pow2(w), 0, v);
    }
  }

  lemma LowLow(v: nat, a: nat, b: nat)
    requires b <= a
    ensures Low(Low(v, a), b) == Low(v, b)
  {
    hide Shl, Shr, Low;
    SplitAt(v, a);
    var hi, lo := Shr(v, a), Low(v, a);
    ShlShl(hi, a - b, b);
    SplitAt(lo, b);
    var h2, l2 := Shr(lo, b), Low(lo, b);
    ShlAdd(Shl(hi, a - b), h2, b);
    Join(Shl(hi, a - b) + h2, b, l2);
    Join(h2, b, l2);
  }

  lemma LowHalf(x: nat, m: nat)
    requires m > 0
    ensures Low(x, m) / 2 == Low(x / 2, m - 1) && Low(x, m) % 2 == x % 2
  {
    hide Low;
    assert Pow2(1) == 2;
    LowJoin(x / 2, 1, x % 2, m);
  }

  lemma {:induction false} BitLow(x: nat, w: nat, m: nat)
    requires w < m
    ensures Bit(Low(x, m), w) == Bit(x, w)
    decreases w
  {
    hide Low;
    LowHalf(x, m);
    if w > 0 {
      BitLow(x / 2, w - 1, m - 1);
    }
  }

  /** Halving a multiple of a power of two plus a smaller number. */
  lemma HalvePow(x: nat, k: nat, y: nat)
    requires k > 0
    ensures (x * Pow2(k) + y) / 2 == x * Pow2(k - 1) + y / 2
    ensures (x * Pow2(k) + y) % 2 == y % 2
  {
    assert x * Pow2(k) == 2 * (x * Pow2(k - 1));
  }

  /** Parts that do not overlap are joined by addition. */
  lemma {:induction false} OrDisjoint(x: nat, k: nat, y: nat)
    requires y < Pow2(k)
    ensures Or(x * Pow2(k), y) == x * Pow2(k) + y
    decreases k
  {
    if k == 0 {
      OrZero(x);
    } else {
      HalvePow(x, k, 0);
      OrDisjoint(x, k - 1, y / 2);
    }
  }

  lemma {:induction false} OrZero(x: nat)
    ensures Or(x, 0) == x
  {
    if x > 0 {
      OrZero(x / 2);
    }
  }

  lemma {:induction false} OrCommutes(x: nat, y: nat)
    ensures Or(x, y) == Or(y, x)
    decreases x + y
  {
    if x != 0 || y != 0 {
      OrCommutes(x / 2, y / 2);
    }
  }

  /** Bit `k` is the low bit of the quotient. */
  lemma {:induction false} BitQuotient(x: nat, k: nat)
    ensures Bit(x, k) <==> x / Pow2(k) % 2 == 1
    decreases k
  {
    if k > 0 {
      BitQuotient(x / 2, k - 1);
      DivTwice(x, Pow2(k - 1));
    }
  }

  lemma DivTwice(x: nat, p: nat)
    requires p > 0
    ensures x / 2 / p == x / (2 * p)
  {
    var q := x / 2 / p;
    var r := x / 2 % p;
    assert x / 2 == q * p + r;
    assert x == 2 * (q * p + r) + x % 2;
    assert x == q * (2 * p) + (2 * r + x % 2);
    DivUnique(x, 2 * p, q, 2 * r + x % 2);
  }

  lemma MulAtLeast(k: int, d: nat)
    requires k >= 1
    ensures k * d >= d
  {}

  lemma DivUnique(x: nat, d: nat, q: nat, r: nat)
    requires d > 0 && r < d && x == q * d + r
    ensures x / d == q && x % d == r
  {
    var q', r' := x / d, x % d;
    var gap := q' - q;
    assert q' * d + r' == q * d + r;
    assert gap * d == q' * d - q * d == r - r';
    if gap >= 1 {
      MulAtLeast(gap, d);
    } else if gap <= -1 {
      MulAtLeast(-gap, d);
    }
  }

  // ---- exclusive or ----

  lemma {:induction false} XorCancels(x: nat, y: nat)
    ensures Xor(Xor(x, y), y) == x
    decreases x + y
  {
    if x != 0 || y != 0 {
      XorCancels(x / 2, y / 2);
      var z := Xor(x, y);
      assert z / 2 == Xor(x / 2, y / 2) && z % 2 == Bool(x % 2 != y % 2);
      if z == 0 && y == 0 {
        XorZero(x);
      }
    }
  }

  lemma {:induction false} XorZero(x: nat)
    ensures Xor(x, 0) == x
  {
    if x > 0 {
      XorZero(x / 2);
    }
  }

  lemma {:induction false} XorCommutes(x: nat, y: nat)
    ensures Xor(x, y) == Xor(y, x)
    decreases x + y
  {
    if x != 0 || y != 0 {
      XorCommutes(x / 2, y / 2);
    }
  }

  lemma {:induction false} XorBound(x: nat, y: nat, n: nat)
    requires x < Pow2(n) && y < Pow2(n)
    ensures Xor(x, y) < Pow2(n)
    decreases n
  {
    if n > 0 && (x != 0 || y != 0) {
      XorBound(x / 2, y / 2, n - 1);
    }
  }

  // ---- single bits ----

  lemma {:induction false} SetBitBits(x: nat, i: nat, j: nat)
    ensures Bit(SetBit(x, i), j) <==> j == i || Bit(x, j)
    decreases i
  {
    if i == 0 {
      assert SetBit(x, i) / 2 == x / 2 && SetBit(x, i) % 2 == 1;
    } else {
      assert SetBit(x, i) / 2 == SetBit(x / 2, i - 1) && SetBit(x, i) % 2 == x % 2;
      if j > 0 {
        SetBitBits(x / 2, i - 1, j - 1);
      }
    }
  }

  lemma {:induction false} ClearBitBits(x: nat, i: nat, j: nat)
    ensures Bit(ClearBit(x, i), j) <==> j != i && Bit(x, j)
    decreases i
  {
    if i == 0 {
      assert ClearBit(x, i) / 2 == x / 2 && ClearBit(x, i) % 2 == 0;
    } else {
      assert ClearBit(x, i) / 2 == ClearBit(x / 2, i - 1) && ClearBit(x, i) % 2 == x % 2;
      if j > 0 {
        ClearBitBits(x / 2, i - 1, j - 1);
      }
    }
  }

  lemma {:induction false} AndBits(x: nat, y: nat, j: nat)
    ensures Bit(And(x, y), j) <==> Bit(x, j) && Bit(y, j)
    decreases j
  {
    if x == 0 {
      ZeroBits(j);
    } else if j > 0 {
      AndBits(x / 2, y / 2, j - 1);
    }
  }

  lemma {:induction false} SetBitBound(x: nat, i: nat, n: nat)
    requires i < n && x < Pow2(n)
    ensures SetBit(x, i) < Pow2(n) && ClearBit(x, i) < Pow2(n)
    decreases i
  {
    assert Pow2(n) == 2 * Pow2(n - 1);
    assert x / 2 < Pow2(n - 1);
    if i > 0 {
      SetBitBound(x / 2, i - 1, n - 1);
    }
  }

  /** Position of the highest set bit of a non-zero word. */
  function HighBit(x: nat): (h: nat)
    requires x > 0
    ensures Pow2(h) <= x < 2 * Pow2(h)
  {
    if x == 1 then 0 else 1 + HighBit(x / 2)
  }

  lemma {:induction false} HighBitIsTop(x: nat, j: nat)
    requires x > 0
    ensures Bit(x, HighBit(x)) && (Bit(x, j) ==> j <= HighBit(x))
    decreases x
  {
    if x > 1 {
      HighBitIsTop(x / 2, if j > 0 then j - 1 else 0);
    } else {
      ZeroBits(j);
    }
  }

  lemma {:induction false} ZeroBits(j: nat)
    ensures !Bit(0, j)
  {
    if j > 0 {
      ZeroBits(j - 1);
    }
  }
}
