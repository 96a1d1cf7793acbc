/** Significands with a binary exponent: doubles, their boundaries, and rounded products. */
module DiyFps {
  import opened Powers

  const BIT52: nat := 0x10_0000_0000_0000
  const BIT53: nat := 0x20_0000_0000_0000
  const BIT63: nat := 0x8000_0000_0000_0000
  const BIT64: nat := 0x1_0000_0000_0000_0000

  datatype DiyFp = DiyFp(f: nat, e: int)

  /// ## Real values

  function Pow2(n: int): (p: real)
    ensures p > 0.0
    decreases if n < 0 then -n else n
  {
    if n == 0 then 1.0 else if n > 0 then 2.0 * Pow2(n - 1) else Pow2(n + 1) / 2.0
  }

  lemma Pow2Step(n: int)
    ensures Pow2(n + 1) == 2.0 * Pow2(n)
  {
  }

  lemma Pow2Add(m: int, n: int)
    ensures Pow2(m + n) == Pow2(m) * Pow2(n)
  {
    var p := i => Pow2(i);
    forall i ensures Steps(p, 2.0, i) { assert p(i + 1) == 2.0 * p(i); }
    LawOfSteps(p, 2.0, m, n);
    assert Law(p, m, n);
  }

  function Pow10(n: int): (p: real)
    ensures p > 0.0
    decreases if n < 0 then -n else n
  {
    if n == 0 then 1.0 else if n > 0 then 10.0 * Pow10(n - 1) else Pow10(n + 1) / 10.0
  }


  lemma Pow10Add(m: int, n: int)
    ensures Pow10(m + n) == Pow10(m) * Pow10(n)
  {
    var p := i => Pow10(i);
    forall i ensures Steps(p, 10.0, i) { assert p(i + 1) == 10.0 * p(i); }
    LawOfSteps(p, 10.0, m, n);
    assert Law(p, m, n);
  }

  lemma {:induction false} Pow2IsPower(n: nat)
    ensures Pow2(n) == Power(2, n) as real
  {
    if n > 0 {
      Pow2IsPower(n - 1);
    }
  }

  lemma {:induction false} Pow10IsPower(n: nat)
    ensures Pow10(n) == Power(10, n) as real
  {
    if n > 0 {
      Pow10IsPower(n - 1);
    }
  }

  predicate Steps(p: int -> real, b: real, n: int) {
    p(n + 1) == b * p(n)
  }

  predicate Law(p: int -> real, m: int, n: int) {
    p(m + n) == p(m) * p(n)
  }

  /** Sums of exponents are products of powers. */
  lemma {:induction false} LawOfSteps(p: int -> real, b: real, m: int, n: int)
    requires b > 0.0 && p(0) == 1.0 && forall i :: Steps(p, b, i)
    ensures Law(p, m, n)
    decreases if m < 0 then -m else m
  {
    if m > 0 {
      LawOfSteps(p, b, m - 1, n);
      assert Steps(p, b, m - 1) && Steps(p, b, m - 1 + n);
      assert m - 1 + 1 == m && m - 1 + n + 1 == m + n;
    } else if m < 0 {
      LawOfSteps(p, b, m + 1, n);
      assert Steps(p, b, m) && Steps(p, b, m + n);
      assert m + n + 1 == m + 1 + n;
      Ungroup(b, p(m), p(n), p(m + 1), p(m + n));
    }
  }

  lemma Ungroup(b: real, x: real, y: real, bx: real, z: real)
    requires b != 0.0 && bx == b * x && b * z == bx * y
    ensures z == x * y
  {
    assert b * z == b * (x * y);
  }

  /** Products of powers, by name. */
  predicate Product(x: real, y: real, xy: real) {
    x * y == xy
  }

  lemma Reassociate(a: real, b: real, c: real)
    ensures (a * b) * c == a * (b * c)
  {
  }

  lemma RealProduct(x: int, y: int)
    ensures (x * y) as real == x as real * y as real
  {
  }

  function Real(x: DiyFp): real {
    x.f as real * Pow2(x.e)
  }

  /// ## Doubles

  /** The non-negative finite doubles, as decoded: normal ones have 53 bits. */
  predicate IsDouble(v: DiyFp) {
    v.f < BIT53 && -1074 <= v.e <= 971 && (v.f >= BIT52 || v.e == -1074)
  }

  /** The double with the bits `u`. */
  function OfBits(u: nat): DiyFp
    requires u < BIT64
  {
    var biased, significand := u / BIT52 % 0x800, u % BIT52;
    if biased != 0 then DiyFp(significand + BIT52, biased - 1075) else DiyFp(significand, -1074)
  }

  /** Every pattern but those for infinity and not-a-number gives such a double, and each of them has one. */
  lemma OfBitsIsDouble(u: nat)
    requires u < BIT64
    ensures IsDouble(OfBits(u)) <==> u / BIT52 % 0x800 != 0x7FF
  {
  }

  lemma DoubleHasBits(v: DiyFp) returns (u: nat)
    requires IsDouble(v)
    ensures u < BIT63 && OfBits(u) == v
  {
    if v.f >= BIT52 {
      u := (v.e + 1075) * BIT52 + (v.f - BIT52);
      assert u / BIT52 == v.e + 1075 && u % BIT52 == v.f - BIT52;
    } else {
      u := v.f;
    }
  }

  /** Half way to the next double above. */
  function Above(v: DiyFp): DiyFp {
    DiyFp(2 * v.f + 1, v.e - 1)
  }

  /** Half way to the next double below, which is closer below a power of two. */
  function Below(v: DiyFp): DiyFp
    requires v.f > 0
  {
    if v.f == BIT52 then DiyFp(4 * v.f - 1, v.e - 2) else DiyFp(2 * v.f - 1, v.e - 1)
  }

  /// ## Shifting

  /** Doubles the significand until it has reached `top`. */
  function ShiftedUp(x: DiyFp, top: nat): DiyFp
    requires x.f > 0
    decreases top - x.f
  {
    if x.f >= top then x else ShiftedUp(DiyFp(2 * x.f, x.e - 1), top)
  }

  /** The significand that ends between `top` and twice `top` tells by how much it was shifted. */
  lemma {:induction false} ShiftIs(x: DiyFp, top: nat, s: nat)
    requires x.f > 0 && top <= x.f * Power(2, s) < 2 * top
    ensures ShiftedUp(x, top) == DiyFp(x.f * Power(2, s), x.e - s)
    decreases s
  {
    if s > 0 {
      var p := Power(2, s - 1);
      assert x.f * (2 * p) == 2 * (x.f * p) == (2 * x.f) * p;
      AtLeast(x.f, p);
      ShiftIs(DiyFp(2 * x.f, x.e - 1), top, s - 1);
    }
  }

  lemma {:induction false} ShiftExists(f: nat, top: nat) returns (s: nat)
    requires 0 < f < 2 * top
    ensures top <= f * Power(2, s) < 2 * top
    decreases top - f
  {
    if f >= top {
      s := 0;
    } else {
      s := ShiftExists(2 * f, top);
      assert f * (2 * Power(2, s)) == (2 * f) * Power(2, s);
      s := s + 1;
    }
  }

  lemma ShiftKeepsReal(f: nat, e: int, s: nat)
    ensures Real(DiyFp(f * Power(2, s), e - s)) == Real(DiyFp(f, e))
  {
    Pow2Add(s, e - s);
    Pow2IsPower(s);
    RealProduct(f, Power(2, s));
    Reassociate(f as real, Pow2(s), Pow2(e - s));
  }

  /// ## Normalisation and boundaries

  function Normalize(x: DiyFp): DiyFp
    requires x.f > 0
  {
    ShiftedUp(x, BIT63)
  }

  function NormalizedBoundary(x: DiyFp): DiyFp
    requires x.f > 0
  {
    var y := ShiftedUp(x, BIT53);
    DiyFp(y.f * 0x400, y.e - 10)
  }

  function ShiftedTo(x: DiyFp, e: int): DiyFp
    requires e <= x.e
  {
    DiyFp(x.f * Power(2, x.e - e), e)
  }

  /** By how much a double and its boundaries are shifted, and by which distance they are apart then. */
  lemma BoundaryShift(v: DiyFp) returns (s: nat)
    requires 0 < v.f < BIT53
    ensures s >= 11 && BIT63 <= v.f * Power(2, s) < BIT64 && (2 * v.f + 1) * Power(2, s - 1) < BIT64
    ensures NormalizedBoundary(Above(v)) == DiyFp((2 * v.f + 1) * Power(2, s - 1), v.e - s)
    ensures Normalize(v) == DiyFp(v.f * Power(2, s), v.e - s)
  {
    var t := ShiftExists(2 * v.f + 1, BIT53);
    ShiftIs(Above(v), BIT53, t);
    s := t + 11;
    TenMore(t);
    StillNormal(v.f, t);
    ShiftedNumbers(v.f, Power(2, t), Power(2, t + 10), Power(2, t + 11));
    ShiftIs(v, BIT63, s);
  }

  lemma ShiftedNumbers(f: nat, p: nat, q: nat, r: nat)
    requires q == p * 0x400 && r == p * 0x800 && p > 0
    requires BIT53 <= 2 * f * p && (2 * f + 1) * p < 2 * BIT53
    ensures BIT63 <= f * r < BIT64 && (2 * f + 1) * q < BIT64 && ((2 * f + 1) * p) * 0x400 == (2 * f + 1) * q
  {
    assert f * r == (2 * f * p) * 0x400;
    assert (2 * f + 1) * q == ((2 * f + 1) * p) * 0x400;
    assert (2 * f + 1) * p == 2 * f * p + p;
  }

  lemma TenMore(t: nat)
    ensures Power(2, t + 10) == Power(2, t) * 0x400 && Power(2, t + 11) == Power(2, t) * 0x800
  {
    PowerAdd(2, t, 10);
    assert Power(2, 5) == 32;
    PowerAdd(2, 5, 5);
  }

  /** An odd multiple of a power of two that reaches a greater one does so without its last bit. */
  lemma StillNormal(f: nat, t: nat)
    requires f > 0 && BIT53 <= (2 * f + 1) * Power(2, t)
    ensures 2 * f * Power(2, t) >= BIT53
  {
    var p := Power(2, t);
    PowersOfTwo();
    if t <= 52 {
      PowerAdd(2, t, 52 - t);
      OddMultiple(f, p, Power(2, 52 - t));
    } else {
      MorePower(2, 53, t);
      assert Power(2, 53) == BIT53;
      AtLeast(p, 2 * f);
    }
  }

  lemma OddMultiple(f: nat, p: nat, q: nat)
    requires p > 0 && 2 * (p * q) <= (2 * f + 1) * p
    ensures 2 * (p * q) <= 2 * f * p
  {
    assert (2 * f + 1) * p == 2 * (f * p) + p;
    if f < q {
      Monotone(f + 1, q, p);
    } else {
      Monotone(q, f, p);
    }
  }

  /// ## Products

  /** The upper half of the product, rounded to nearest. */
  function Times(x: DiyFp, y: DiyFp): DiyFp {
    DiyFp((x.f * y.f + BIT63) / BIT64, x.e + y.e + 64)
  }

  predicate HalfUnit(x: real, y: real, unit: real) {
    -unit <= 2.0 * (x - y) <= unit
  }

  /** `c` is the power of ten, to half a unit of its last place. */
  predicate IsPowerOfTen(c: DiyFp, p: int) {
    HalfUnit(Real(c), Pow10(p), Pow2(c.e))
  }

  /** A number times such a power of ten is off by less than one. */
  lemma ScaledError(wf: nat, cf: nat, rf: nat, u: real, x: real)
    requires wf < BIT64 && u > 0.0 && -u <= 2.0 * (cf as real * u - x) <= u
    requires rf == (wf * cf + BIT63) / BIT64
    ensures (rf - 1) as real * (BIT64 as real * u) < wf as real * x < (rf + 1) as real * (BIT64 as real * u)
  {
    var w, c, r := wf as real, cf as real, rf as real;
    RealProduct(wf, cf);
    assert BIT64 as real * r - BIT63 as real <= w * c < BIT64 as real * r + BIT63 as real;
    ErrorSum(w, c, r, u, x);
  }

  lemma ScaledProducts(a: real, b: real, c: real, ac: real, bc: real)
    requires a <= b && c >= 0.0 && Product(a, c, ac) && Product(b, c, bc)
    ensures ac <= bc
  {
    ScaledUp(a, b, c);
  }

  lemma SumProduct(a: real, b: real, c: real, ac: real, bc: real, sum: real)
    requires Product(a, c, ac) && Product(b, c, bc) && Product(a + b, c, sum)
    ensures sum == ac + bc
  {
  }

  lemma ErrorSum(w: real, c: real, r: real, u: real, x: real)
    requires 0.0 <= w < 18446744073709551616.0 && u > 0.0 && -u <= 2.0 * (c * u - x) <= u
    requires 18446744073709551616.0 * r - 9223372036854775808.0 <= w * c
    requires w * c < 18446744073709551616.0 * r + 9223372036854775808.0
    ensures (r - 1.0) * (18446744073709551616.0 * u) < w * x < (r + 1.0) * (18446744073709551616.0 * u)
  {
    var wc, cu, wx := w * c, c * u, w * x;
    var d := x - cu;
    var wcu, wd := wc * u, d * w;
    Reassociate(w, c, u);
    SumProduct(cu, d, w, wcu, wd, wx);
    SmallProduct(w, d, u);
    var high := 18446744073709551616.0 * r + 9223372036854775808.0;
    var low := 18446744073709551616.0 * r - 9223372036854775808.0;
    var highU, lowU := high * u, low * u;
    ScaledProducts(wc, high, u, wcu, highU);
    ScaledProducts(low, wc, u, lowU, wcu);
    Rescaled(r, u);
    Sums(wx, wcu, wd, lowU, highU, 9223372036854775808.0 * u);
  }

  lemma Sums(wx: real, wcu: real, error: real, low: real, high: real, half: real)
    requires wx == wcu + error && low <= wcu <= high && -half < error < half
    ensures low - half < wx < high + half
  {
  }

  lemma Rescaled(r: real, u: real)
    ensures (18446744073709551616.0 * r + 9223372036854775808.0) * u + 9223372036854775808.0 * u
            == (r + 1.0) * (18446744073709551616.0 * u)
    ensures (18446744073709551616.0 * r - 9223372036854775808.0) * u - 9223372036854775808.0 * u
            == (r - 1.0) * (18446744073709551616.0 * u)
  {
  }

  lemma SmallProduct(w: real, d: real, u: real)
    requires 0.0 <= w < 18446744073709551616.0 && u > 0.0 && -u <= 2.0 * d <= u
    ensures -(9223372036854775808.0 * u) < w * d < 9223372036854775808.0 * u
  {
    var x, y := w * d, u * w;
    ScaledUp(2.0 * d, u, w);
    ScaledUp(-u, 2.0 * d, w);
    assert 2.0 * d * w == 2.0 * x && (-u) * w == -y;
    assert y < 18446744073709551616.0 * u by {
      assert (18446744073709551616.0 - w) * u > 0.0;
      assert 18446744073709551616.0 * u - u * w == (18446744073709551616.0 - w) * u;
    }
    assert -y <= 2.0 * x <= y;
  }

  lemma ScaledUp(a: real, b: real, c: real)
    requires a <= b && c >= 0.0
    ensures a * c <= b * c
  {
  }
}
