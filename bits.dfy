/** Python's bitwise operators on non-negative integers, written out on `nat`.
    Python integers are unbounded, so `|`, `&`, `^`, `<<` and `>>` are modelled
    on unbounded naturals rather than on a fixed-width bit-vector type. */
module Bits {

  /** `1 << n` */
  function Pow2(n: nat): (r: nat)
    ensures r >= 1
  {
    if n == 0 then 1 else 2 * Pow2(n - 1)
  }

  /** `x >> n` */
  function ShiftRight(x: nat, n: nat): nat
  {
    if n == 0 then x else ShiftRight(x / 2, n - 1)
  }

  /** `(1 << k) >> n` is `1 << (k - n)` while `n <= k`. */
  lemma {:induction false} ShiftPow2(k: nat, n: nat)
    requires n <= k
    ensures ShiftRight(Pow2(k), n) == Pow2(k - n)
  {
    if n > 0 {
      assert Pow2(k) / 2 == Pow2(k - 1);
      ShiftPow2(k - 1, n - 1);
    }
  }

  /** Bit `j` of `x`, bit 0 being the least significant: `(x >> j) & 1`. */
  function Bit(x: nat, j: nat): (b: nat)
    ensures b <= 1
  {
    (x / Pow2(j)) % 2
  }

  /** `u` is a power of two, stated without `Pow2` so that lemmas about
      multiples of `u` stay linear for the solver. */
  predicate PowerOfTwo(u: nat)
    decreases u
  {
    u == 1 || (u >= 2 && u % 2 == 0 && PowerOfTwo(u / 2))
  }

  lemma {:induction false} Pow2IsPowerOfTwo(s: nat)
    ensures PowerOfTwo(Pow2(s))
  {
    if s > 0 {
      Pow2IsPowerOfTwo(s - 1);
      assert Pow2(s) / 2 == Pow2(s - 1);
    }
  }

  /** The powers of two up to `1 << 32`, as literals. */
  lemma Pow2Table()
    ensures Pow2(0) == 0x1
    ensures Pow2(1) == 0x2
    ensures Pow2(2) == 0x4
    ensures Pow2(3) == 0x8
    ensures Pow2(4) == 0x10
    ensures Pow2(5) == 0x20
    ensures Pow2(6) == 0x40
    ensures Pow2(7) == 0x80
    ensures Pow2(8) == 0x100
    ensures Pow2(9) == 0x200
    ensures Pow2(10) == 0x400
    ensures Pow2(11) == 0x800
    ensures Pow2(12) == 0x1000
    ensures Pow2(13) == 0x2000
    ensures Pow2(14) == 0x4000
    ensures Pow2(15) == 0x8000
    ensures Pow2(16) == 0x10000
    ensures Pow2(17) == 0x20000
    ensures Pow2(18) == 0x40000
    ensures Pow2(19) == 0x80000
    ensures Pow2(20) == 0x100000
    ensures Pow2(21) == 0x200000
    ensures Pow2(22) == 0x400000
    ensures Pow2(23) == 0x800000
    ensures Pow2(24) == 0x1000000
    ensures Pow2(25) == 0x2000000
    ensures Pow2(26) == 0x4000000
    ensures Pow2(27) == 0x8000000
    ensures Pow2(28) == 0x10000000
    ensures Pow2(29) == 0x20000000
    ensures Pow2(30) == 0x40000000
    ensures Pow2(31) == 0x80000000
    ensures Pow2(32) == 0x100000000
  {
    assert Pow2(1) == 2 * Pow2(0);
    assert Pow2(2) == 2 * Pow2(1);
    assert Pow2(3) == 2 * Pow2(2);
    assert Pow2(4) == 2 * Pow2(3);
    assert Pow2(5) == 2 * Pow2(4);
    assert Pow2(6) == 2 * Pow2(5);
    assert Pow2(7) == 2 * Pow2(6);
    assert Pow2(8) == 2 * Pow2(7);
    assert Pow2(9) == 2 * Pow2(8);
    assert Pow2(10) == 2 * Pow2(9);
    assert Pow2(11) == 2 * Pow2(10);
    assert Pow2(12) == 2 * Pow2(11);
    assert Pow2(13) == 2 * Pow2(12);
    assert Pow2(14) == 2 * Pow2(13);
    assert Pow2(15) == 2 * Pow2(14);
    assert Pow2(16) == 2 * Pow2(15);
    assert Pow2(17) == 2 * Pow2(16);
    assert Pow2(18) == 2 * Pow2(17);
    assert Pow2(19) == 2 * Pow2(18);
    assert Pow2(20) == 2 * Pow2(19);
    assert Pow2(21) == 2 * Pow2(20);
    assert Pow2(22) == 2 * Pow2(21);
    assert Pow2(23) == 2 * Pow2(22);
    assert Pow2(24) == 2 * Pow2(23);
    assert Pow2(25) == 2 * Pow2(24);
    assert Pow2(26) == 2 * Pow2(25);
    assert Pow2(27) == 2 * Pow2(26);
    assert Pow2(28) == 2 * Pow2(27);
    assert Pow2(29) == 2 * Pow2(28);
    assert Pow2(30) == 2 * Pow2(29);
    assert Pow2(31) == 2 * Pow2(30);
    assert Pow2(32) == 2 * Pow2(31);
  }

  /** `a | b` */
  function Or(a: nat, b: nat): nat
    decreases a + b
  {
    if a == 0 then b
    else if b == 0 then a
    else 2 * Or(a / 2, b / 2) + (if a % 2 == 1 || b % 2 == 1 then 1 else 0)
  }

  /** `a & b` */
  function And(a: nat, b: nat): nat
    decreases a + b
  {
    if a == 0 || b == 0 then 0
    else 2 * And(a / 2, b / 2) + (if a % 2 == 1 && b % 2 == 1 then 1 else 0)
  }

  /** `a & ~b`: the bits of `a` that are clear in `b`. */
  function AndNot(a: nat, b: nat): nat
    decreases a
  {
    if a == 0 then 0
    else 2 * AndNot(a / 2, b / 2) + (if a % 2 == 1 && b % 2 == 0 then 1 else 0)
  }

  /** Clearing the low bits of `a` under the mask `v - 1` leaves nothing
      exactly when `a` is below `v`. */
  lemma {:induction false} AndNotLowMask(a: nat, v: nat)
    requires PowerOfTwo(v)
    ensures AndNot(a, v - 1) == 0 <==> a < v
    decreases v
  {
    if v == 1 {
      AndNotZero(a);
    } else {
      var p := v / 2;
      assert (v - 1) / 2 == p - 1 && (v - 1) % 2 == 1;
      AndNotLowMask(a / 2, p);
    }
  }

  /** The same, for a mask given by name. */
  lemma AndNotBelow(a: nat, m: nat, v: nat)
    requires PowerOfTwo(v) && m == v - 1
    ensures AndNot(a, m) != 0 <==> a >= v
  {
    AndNotLowMask(a, v);
  }

  lemma {:induction false} AndNotZero(a: nat)
    ensures AndNot(a, 0) == a
    decreases a
  {
    if a > 0 {
      AndNotZero(a / 2);
    }
  }

  /** `a ^ b` */
  function Xor(a: nat, b: nat): nat
    decreases a + b
  {
    if a == 0 then b
    else if b == 0 then a
    else 2 * Xor(a / 2, b / 2) + (if a % 2 != b % 2 then 1 else 0)
  }

  /** Number of set bits among bits 0 .. n-1 of `x`. */
  function PopCount(x: nat, n: nat): (r: nat)
    ensures r <= n
  {
    if n == 0 then 0 else PopCount(x, n - 1) + Bit(x, n - 1)
  }

  // ---------------------------------------------------------------------
  // Arithmetic helpers

  lemma DivDiv(x: nat, a: nat, b: nat)
    requires a > 0 && b > 0
    ensures x / (a * b) == (x / a) / b
  {
    var y, r1 := DivMod(x, a);
    var q, r2 := DivMod(y, b);
    Nest(a, b, q, r1, r2);
    DivUnique(x, a * b, q, a * r2 + r1);
  }

  /** `a * (b * q + r2) + r1` regrouped by the unit `a * b`. */
  lemma Nest(a: nat, b: nat, q: nat, r1: nat, r2: nat)
    requires r1 < a && r2 < b
    ensures a * (b * q + r2) + r1 == (a * b) * q + (a * r2 + r1)
    ensures a * r2 + r1 < a * b
  {
    assert a * (b * q + r2) == (a * b) * q + a * r2;
    assert a * r2 <= a * (b - 1);
  }

  lemma DivUnique(x: nat, d: nat, q: nat, r: nat)
    requires d > 0 && 0 <= r < d && x == d * q + r
    ensures x / d == q && x % d == r
  {
    var q', r' := x / d, x % d;
    assert x == d * q' + r';
    if q' < q {
      MulAtLeast(d, q - q');
    } else if q' > q {
      MulAtLeast(d, q' - q);
    }
  }

  lemma MulAtLeast(d: nat, k: nat)
    requires k >= 1
    ensures d * k >= d
  {
    assert d * k == d + d * (k - 1);
  }

  /** Splitting off the next `b` digits: `x / a` is `b * (x / (a * b))`
      plus `(x / a) % b`. */
  lemma Recompose(x: nat, a: nat, b: nat)
    requires a > 0 && b > 0
    ensures x / a == b * (x / (a * b)) + (x / a) % b
  {
    DivDiv(x, a, b);
  }

  lemma Pow2Add(a: nat, b: nat)
    ensures Pow2(a + b) == Pow2(a) * Pow2(b)
  {
    if a > 0 {
      Pow2Add(a - 1, b);
    }
  }

  /** Bit `j+1` of `x` is bit `j` of `x / 2`. */
  lemma BitHalf(x: nat, j: nat)
    ensures Bit(x, j + 1) == Bit(x / 2, j)
  {
    DivDiv(x, 2, Pow2(j));
  }

  // ---------------------------------------------------------------------
  // Laws of `|`

  lemma OrZero(a: nat)
    ensures Or(a, 0) == a && Or(0, a) == a
  {
  }

  /** One step of the bitwise recursion, valid also when an operand is 0. */
  lemma OrStep(a: nat, b: nat)
    ensures Or(a, b) == 2 * Or(a / 2, b / 2) + (if a % 2 == 1 || b % 2 == 1 then 1 else 0)
  {
    if a == 0 {
      OrZero(b / 2);
    } else if b == 0 {
      OrZero(a / 2);
    }
  }

  lemma {:induction false} OrIdempotent(a: nat)
    ensures Or(a, a) == a
  {
    if a > 0 {
      OrIdempotent(a / 2);
    }
  }

  lemma {:induction false} OrAssociative(a: nat, b: nat, c: nat)
    ensures Or(Or(a, b), c) == Or(a, Or(b, c))
    decreases a + b + c
  {
    if a + b + c > 0 {
      OrStep(a, b);
      OrStep(b, c);
      OrStep(Or(a, b), c);
      OrStep(a, Or(b, c));
      assert Or(a, b) / 2 == Or(a / 2, b / 2);
      assert Or(b, c) / 2 == Or(b / 2, c / 2);
      OrAssociative(a / 2, b / 2, c / 2);
    }
  }

  /** OR-ing a value below `2^k` into a multiple of `2^k` is addition:
      the two operands occupy disjoint bit positions. */
  lemma {:induction false} OrDisjoint(a: nat, b: nat, k: nat)
    requires b < Pow2(k)
    ensures Or(a * Pow2(k), b) == a * Pow2(k) + b
  {
    if k == 0 {
      OrZero(a);
    } else {
      var A := a * Pow2(k);
      assert A == 2 * (a * Pow2(k - 1));
      assert A / 2 == a * Pow2(k - 1) && A % 2 == 0;
      OrStep(A, b);
      OrDisjoint(a, b / 2, k - 1);
    }
  }


  /** The same, with the unit `2^k` given as a number. */
  lemma OrUnit(q: nat, lo: nat, u: nat, k: nat)
    requires u == Pow2(k) && lo < u
    ensures Or(q * u, lo) == q * u + lo
  {
    OrDisjoint(q, lo, k);
  }

  /** A multiple of `2^k` shares no bit with a value below `2^k`. */
  lemma {:induction false} AndDisjoint(a: nat, b: nat, k: nat)
    requires b < Pow2(k)
    ensures And(a * Pow2(k), b) == 0
  {
    if k > 0 {
      var A := a * Pow2(k);
      assert A == 2 * (a * Pow2(k - 1));
      assert A / 2 == a * Pow2(k - 1) && A % 2 == 0;
      AndStep(A, b);
      AndDisjoint(a, b / 2, k - 1);
    }
  }

  // ---------------------------------------------------------------------
  // Laws of `&` and `^`

  lemma AndStep(a: nat, b: nat)
    ensures And(a, b) == 2 * And(a / 2, b / 2) + (if a % 2 == 1 && b % 2 == 1 then 1 else 0)
  {
  }

  /** `x & (1 << j)` is bit `j` of `x`, kept in place. */
  lemma {:induction false} AndPow2(x: nat, j: nat)
    ensures And(x, Pow2(j)) == Bit(x, j) * Pow2(j)
  {
    if j == 0 {
      AndStep(x, 1);
      assert And(x / 2, 0) == 0;
    } else {
      AndStep(x, Pow2(j));
      assert Pow2(j) / 2 == Pow2(j - 1) && Pow2(j) % 2 == 0;
      AndPow2(x / 2, j - 1);
      BitHalf(x, j - 1);
    }
  }

  lemma XorStep(a: nat, b: nat)
    ensures Xor(a, b) == 2 * Xor(a / 2, b / 2) + (if a % 2 != b % 2 then 1 else 0)
  {
    if a == 0 {
      assert Xor(0, b / 2) == b / 2;
    } else if b == 0 {
      assert Xor(a / 2, 0) == a / 2;
    }
  }

  /** Bit `j` of `a ^ b` is set exactly where the bits of `a` and `b` differ. */
  lemma {:induction false} XorBit(a: nat, b: nat, j: nat)
    ensures Bit(Xor(a, b), j) == (if Bit(a, j) != Bit(b, j) then 1 else 0)
    decreases j
  {
    if j == 0 {
      XorLow(a, b);
    } else {
      XorBit(a / 2, b / 2, j - 1);
      XorHalf(a, b);
      BitHalf(a, j - 1);
      BitHalf(b, j - 1);
      BitHalf(Xor(a, b), j - 1);
    }
  }

  lemma XorLow(a: nat, b: nat)
    ensures Bit(Xor(a, b), 0) == (if Bit(a, 0) != Bit(b, 0) then 1 else 0)
  {
    var x, d := Xor(a, b), if a % 2 != b % 2 then 1 else 0;
    XorStep(a, b);
    DivUnique(x, 2, Xor(a / 2, b / 2), d);
    BitZero(a);
    BitZero(b);
    BitZero(x);
  }

  lemma BitZero(x: nat)
    ensures Bit(x, 0) == x % 2
  {
    assert Pow2(0) == 1;
  }

  lemma XorHalf(a: nat, b: nat)
    ensures Xor(a, b) / 2 == Xor(a / 2, b / 2)
  {
    XorStep(a, b);
  }

  // ---------------------------------------------------------------------
  // Masks made of consecutive ones

  /** `x & (v - 1)` keeps the bits of `x` below the power of two `v`. */
  lemma {:induction false} AndLowMask(x: nat, v: nat)
    requires PowerOfTwo(v)
    ensures And(x, v - 1) == x % v
    decreases v
  {
    if v > 1 {
      var p := v / 2;
      assert (v - 1) / 2 == p - 1 && (v - 1) % 2 == 1;
      AndStep(x, v - 1);
      AndLowMask(x / 2, p);
      HalfSplit(x, p);
    }
  }

  /** The remainder modulo `2p` from the last bit and the remainder of the
      halved value modulo `p`. */
  lemma HalfSplit(x: nat, p: nat)
    requires p > 0
    ensures x % (2 * p) == 2 * ((x / 2) % p) + x % 2
  {
    var q, r := (x / 2) / p, (x / 2) % p;
    assert x == 2 * (x / 2) + x % 2;
    assert x / 2 == p * q + r;
    Twice(q, p);
    assert x == (2 * p) * q + (2 * r + x % 2);
    DivUnique(x, 2 * p, q, 2 * r + x % 2);
  }

  lemma Twice(b: nat, p: nat)
    ensures 2 * (b * p) == b * (2 * p) == (2 * p) * b
  {
  }

  /** The bits of a value below a power of two `u` play no part against
      a mask shifted up by the same power. */
  lemma {:induction false} AndAbove(q: nat, r: nat, mask: nat, u: nat)
    requires PowerOfTwo(u) && r < u
    ensures And(q * u + r, mask * u) == And(q, mask) * u
    decreases u
  {
    if u > 1 {
      var p := u / 2;
      AndAbove(q, r / 2, mask, p);
      AndAboveJoin(q, r, mask, p, u);
    }
  }

  lemma AndAboveJoin(q: nat, r: nat, mask: nat, p: nat, u: nat)
    requires u == 2 * p && r < u
    requires And(q * p + r / 2, mask * p) == And(q, mask) * p
    ensures And(q * u + r, mask * u) == And(q, mask) * u
  {
    var x, a := q * u + r, mask * u;
    Reassoc(q, p, u);
    Reassoc(mask, p, u);
    assert x == q * (2 * p) + r;
    assert a == mask * (2 * p);
    AndAboveStep(q, r, mask, p);
    var b := And(q, mask);
    Reassoc(b, p, u);
  }
  lemma Reassoc(b: nat, p: nat, u: nat)
    requires u == 2 * p
    ensures b * u == b * (2 * p) == 2 * (b * p)
  {
  }
  lemma AndAboveStep(q: nat, r: nat, mask: nat, p: nat)
    requires r < 2 * p
    ensures And(q * (2 * p) + r, mask * (2 * p)) == 2 * And(q * p + r / 2, mask * p)
    ensures r / 2 < p
  {
    var x := q * (2 * p) + r;
    var a := mask * (2 * p);
    Shift1(q, p, r);
    Shift1(mask, p, 0);
    AndStep(x, a);
  }
  lemma Shift1(q: nat, p: nat, r: nat)
    ensures (q * (2 * p) + r) / 2 == q * p + r / 2
    ensures (q * (2 * p) + r) % 2 == r % 2
  {
    assert q * (2 * p) + r == 2 * (q * p) + r;
  }

  lemma DivMod(x: nat, u: nat) returns (q: nat, r: nat)
    requires u > 0
    ensures q == x / u && r == x % u && x == q * u + r && r < u
  {
    q, r := x / u, x % u;
  }
}
