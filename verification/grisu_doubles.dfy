/** Printing a double: its boundaries are scaled by a cached power, and digits between them are generated. */
module GrisuDoubles {
  import opened Powers
  import opened DiyFps
  import opened CachedPowers
  import opened Grisu
  import G = GrisuDigits
  import Z = GrisuZeros
  import N = JsonNumbers
  import JsonText
  import GrisuDigitGen

  predicate IsPositiveDouble(v: DiyFp) {
    IsDouble(v) && v.f > 0
  }

  /// ## Scaling

  function Upper(v: DiyFp): DiyFp {
    NormalizedBoundary(Above(v))
  }

  lemma UpperIsFiner(v: DiyFp)
    requires 0 < v.f < BIT53
    ensures Upper(v).e <= Below(v).e
  {
    var s := BoundaryShift(v);
  }

  /** The lower boundary with the exponent of the upper one. */
  function Lower(v: DiyFp): DiyFp
    requires 0 < v.f < BIT53
  {
    UpperIsFiner(v);
    ShiftedTo(Below(v), Upper(v).e)
  }

  function CachedFor(v: DiyFp): DiyFp
    requires IsPositiveDouble(v)
  {
    ExponentRange(v);
    CachedSuits(Upper(v).e);
    GetCachedPowerByIndex(CachedIndex(Upper(v).e))
  }

  /** The decimal exponent that makes up for the scaling. */
  function CachedK(v: DiyFp): int {
    348 - 8 * CachedIndex(Upper(v).e)
  }

  lemma ExponentRange(v: DiyFp)
    requires IsPositiveDouble(v)
    ensures -1137 <= Upper(v).e <= 960
  {
    var s := BoundaryShift(v);
    ShiftRange(v.f, s);
  }

  lemma ShiftRange(f: nat, s: nat)
    requires f > 0 && f * Power(2, s) < BIT64
    ensures s <= 63 && (f >= BIT52 ==> s <= 11)
  {
    PowersOfTwo();
    ShiftBelow(f, 1, s, 64);
    if f >= BIT52 { ShiftBelow(f, BIT52, s, 12); }
  }

  lemma ShiftBelow(f: nat, m: nat, s: nat, t: nat)
    requires f >= m && f * Power(2, s) < m * Power(2, t)
    ensures s < t
  {
    if s >= t {
      MorePower(2, t, s);
      Monotone(m, f, Power(2, s));
      Monotone(Power(2, t), Power(2, s), m);
      assert false;
    }
  }

  lemma LowerIs(v: DiyFp, s: nat)
    requires 0 < v.f < BIT53 && s >= 11 && Upper(v).e == v.e - s
    ensures Lower(v).e == v.e - s
    ensures Lower(v).f == if v.f == BIT52 then (4 * v.f - 1) * Power(2, s - 2) else (2 * v.f - 1) * Power(2, s - 1)
  {
  }

  /** How the scaled number and its scaled boundaries lie to each other. */
  lemma BoundaryShape(v: DiyFp) returns (h: nat)
    requires IsPositiveDouble(v)
    ensures h >= 0x400 && h % 2 == 0
    ensures Upper(v).e == Lower(v).e == Normalize(v).e
    ensures Normalize(v).f + h == Upper(v).f < BIT64 && BIT63 <= Normalize(v).f
    ensures Lower(v).f == Normalize(v).f - (if v.f == BIT52 then h / 2 else h) && 2 * h <= Normalize(v).f
  {
    var q;
    h, q := ShiftedNumbers(v);
    Shapes(v.f, h, q, Normalize(v).f, Upper(v).f, Lower(v).f);
  }

  lemma ShiftedNumbers(v: DiyFp) returns (h: nat, q: nat)
    requires IsPositiveDouble(v)
    ensures h >= 0x400 && Upper(v).e == Lower(v).e == Normalize(v).e
    ensures BIT63 <= Normalize(v).f && Upper(v).f < BIT64
    ensures Shape(v.f, h, q, Normalize(v).f, Upper(v).f, Lower(v).f)
  {
    var s := BoundaryShift(v);
    LowerIs(v, s);
    ManyUnits(s);
    h, q := Power(2, s - 1), Power(2, s - 2);
  }

  lemma ManyUnits(s: nat)
    requires s >= 11
    ensures Power(2, s) == 2 * Power(2, s - 1) && Power(2, s - 1) == 2 * Power(2, s - 2) && Power(2, s - 1) >= 0x400
  {
    TenMore(s - 11);
  }

  predicate Shape(f: nat, h: nat, q: nat, number: nat, upper: nat, lower: nat) {
    && f > 0 && h == 2 * q && number == f * (2 * h) && upper == (2 * f + 1) * h
    && lower == if f == BIT52 then (4 * f - 1) * q else (2 * f - 1) * h
  }

  lemma Shapes(f: nat, h: nat, q: nat, number: nat, upper: nat, lower: nat)
    requires Shape(f, h, q, number, upper, lower)
    ensures upper == number + h && 2 * h <= number && lower == number - if f == BIT52 then h / 2 else h
  {
    AtLeast(2 * h, f);
    assert f * (2 * (2 * q)) == 4 * (f * q);
  }

  /** A rounded product is hardly smaller than its second factor. */
  lemma ProductBounds(w: nat, c: nat)
    requires BIT63 <= w < BIT64 && BIT63 <= c < BIT64
    ensures BIT63 / 2 <= (w * c + BIT63) / BIT64 <= c
  {
    Monotone(BIT63, w, c);
    Monotone(w, BIT64 - 1, c);
  }

  /** It keeps at least half of a distance. */
  lemma ProductGap(a: nat, b: nat, c: nat, g: nat)
    requires a == b + 2 * g && c >= BIT63
    ensures (a * c + BIT63) / BIT64 >= (b * c + BIT63) / BIT64 + g
  {
    assert a * c == b * c + 2 * (g * c);
    Monotone(BIT63, c, g);
    assert a * c + BIT63 >= b * c + BIT63 + g * BIT64;
  }

  lemma HalfGap(w: nat, g: nat, c: nat)
    requires 0x200 <= g <= w && c >= BIT63
    ensures (w * c + BIT63) / BIT64 >= ((w - g) * c + BIT63) / BIT64 + 0x100
  {
    Monotone(w - g, w - 0x200, c);
    ProductGap(w, w - 0x200, c, 0x100);
  }

  /** What is generated from: a number and the limits for its digits, with a common exponent. */
  datatype Limits = Limits(low: nat, number: nat, high: nat, e: int)

  predicate Apart(n: nat, low: nat, number: nat, high: nat) {
    low + n / 2 <= number && number + n <= high
  }

  /** The products keep the number apart from its boundaries. */
  lemma ProductsApart(low: nat, number: nat, high: nat, h: nat, c: nat)
    requires h >= 0x400 && h % 2 == 0 && number + h == high && BIT63 <= c
    requires low == number - h || low == number - h / 2
    ensures Apart(0x200, (low * c + BIT63) / BIT64, (number * c + BIT63) / BIT64, (high * c + BIT63) / BIT64)
  {
    ProductGap(high, number, c, h / 2);
    if low == number - h {
      ProductGap(number, low, c, h / 2);
    } else {
      HalfGap(number, h / 2, c);
    }
  }

  /** The number and its boundaries times the cached power, with the limits one unit inside the boundaries. */
  function LimitsOf(v: DiyFp): Limits
    requires IsPositiveDouble(v)
  {
    var c := CachedFor(v);
    LimitsFit(v);
    Limits(Times(Lower(v), c).f + 1, Times(Normalize(v), c).f, Times(Upper(v), c).f - 1, Times(Upper(v), c).e)
  }

  lemma LimitsFit(v: DiyFp)
    requires IsPositiveDouble(v)
    ensures var c := CachedFor(v);
            && Apart(0x200, Times(Lower(v), c).f, Times(Normalize(v), c).f, Times(Upper(v), c).f)
            && Times(Lower(v), c).e == Times(Normalize(v), c).e == Times(Upper(v), c).e
            && BIT63 / 2 <= Times(Upper(v), c).f <= c.f && Suits(c, Upper(v).e) && Times(Lower(v), c).f > 0
  {
    var h := BoundaryShape(v);
    ExponentRange(v);
    CachedSuits(Upper(v).e);
    ProductsFit(Lower(v), Normalize(v), Upper(v), CachedFor(v), h);
  }

  lemma ProductsFit(lower: DiyFp, number: DiyFp, upper: DiyFp, c: DiyFp, h: nat)
    requires h >= 0x400 && h % 2 == 0 && number.f + h == upper.f < BIT64 && BIT63 <= number.f && BIT63 <= c.f < BIT64
    requires lower.f == number.f - h || lower.f == number.f - h / 2
    requires 2 * h <= number.f && lower.e == number.e == upper.e
    ensures Apart(0x200, Times(lower, c).f, Times(number, c).f, Times(upper, c).f)
    ensures Times(lower, c).e == Times(number, c).e == Times(upper, c).e
    ensures BIT63 / 2 <= Times(upper, c).f <= c.f && Times(lower, c).f > 0
  {
    ProductBounds(upper.f, c.f);
    Monotone(2, lower.f, c.f);
    ProductsApart(lower.f, number.f, upper.f, h, c.f);
  }

  /// ## Generating

  predicate CanGenerateFrom(b: Limits) {
    && b.low < b.high && b.low <= b.number <= b.high < WORD && -60 <= b.e <= -34
    && CanGenerate(b.high, Power(2, -b.e), b.high - b.low) && 10 * Power(2, -b.e) <= WORD
  }

  lemma LimitsCanGenerate(v: DiyFp)
    requires IsPositiveDouble(v)
    ensures CanGenerateFrom(LimitsOf(v))
  {
    LimitsFit(v);
    var c, b := CachedFor(v), LimitsOf(v);
    FewDigits(b.high, c.f, -b.e);
  }

  lemma FewDigits(f: nat, c: nat, shift: nat)
    requires 34 <= shift <= 60 && BIT63 / 2 <= f + 1 <= c < BIT64
    requires c < 1000000000 * 0x4_0000_0000 || shift >= 35
    ensures Power(2, shift) > 0 && 1 <= f / Power(2, shift) < 1000000000 && 10 * Power(2, shift) <= WORD
  {
    OneRange(shift);
    Partial(f, Power(2, shift), 1000000000);
  }

  lemma OneRange(shift: nat)
    requires 34 <= shift <= 60
    ensures 0x4_0000_0000 <= Power(2, shift) <= 0x1000_0000_0000_0000
    ensures shift >= 35 ==> Power(2, shift) >= 0x8_0000_0000
  {
    assert Power(2, 4) == 16;
    TenMore(4);
    TenMore(14);
    TenMore(24);
    PowersOfTwo();
    MorePower(2, 34, shift);
    MorePower(2, shift, 60);
    if shift >= 35 { MorePower(2, 35, shift); }
  }

  lemma Partial(f: nat, one: nat, n: nat)
    requires one > 0 && one <= f < n * one
    ensures 1 <= f / one < n
  {
    if f / one >= n { Monotone(n, f / one, one); }
  }

  function GeneratedFrom(b: Limits): Generated
    requires CanGenerateFrom(b)
  {
    Generate(b.high, Power(2, -b.e), b.high - b.low, b.high - b.number)
  }

  lemma GeneratedGood(b: Limits)
    requires CanGenerateFrom(b)
    ensures GeneratedFrom(b).digits != [] && G.GoodDigits(GeneratedFrom(b).digits)
  {
    G.GeneratedWithin(b.high, Power(2, -b.e), b.high - b.low, b.high - b.number);
  }

  function Shifted(g: Generated, k: int): Generated {
    Generated(g.digits, g.kappa + k)
  }

  /** Grisu2: the digits, and the decimal exponent of the last one. */
  function Grisu2(v: DiyFp): (g: Generated)
    requires IsPositiveDouble(v)
    ensures g.digits != [] && G.GoodDigits(g.digits)
  {
    LimitsCanGenerate(v);
    GeneratedGood(LimitsOf(v));
    Shifted(GeneratedFrom(LimitsOf(v)), CachedK(v))
  }

  /// ## The digits are between the boundaries

  ghost function DecimalReal(g: Generated): real
    requires N.AllDigits(g.digits)
  {
    N.Value(g.digits) as real * Pow10(g.kappa)
  }

  predicate Between(low: real, x: real, high: real) {
    low < x < high
  }

  function Scale10(x: real, p: int): real {
    x * Pow10(p)
  }

  /** A rounded product is less than one unit away from the exact one. */
  lemma ScaledBounds(w: DiyFp, c: DiyFp, p: int)
    requires w.f < BIT64 && IsPowerOfTen(c, p) && Times(w, c).f > 0
    ensures var r := Times(w, c);
            Between(Real(DiyFp(r.f - 1, r.e)), Scale10(Real(w), p), Real(DiyFp(r.f + 1, r.e)))
  {
    var r := Times(w, c);
    Pow2Product(w.e, c.e);
    SixtyFour(w.e + c.e);
    Scale10IsProduct(Real(w), p);
    RealIsProduct(w);
    RealIsProduct(c);
    RealIsProduct(DiyFp(r.f - 1, r.e));
    RealIsProduct(DiyFp(r.f + 1, r.e));
    ScaledBoundsOf(w.f, c.f, r.f, Pow2(w.e), Pow2(c.e), Pow10(p), Pow2(w.e + c.e), Pow2(r.e), Real(w), Real(c),
                   Real(DiyFp(r.f - 1, r.e)), Scale10(Real(w), p), Real(DiyFp(r.f + 1, r.e)));
  }

  lemma Pow2Product(m: int, n: int)
    ensures Product(Pow2(m), Pow2(n), Pow2(m + n))
  {
    Pow2Add(m, n);
  }

  lemma Scale10IsProduct(x: real, p: int)
    ensures Product(x, Pow10(p), Scale10(x, p))
  {
  }

  lemma RealIsProduct(x: DiyFp)
    ensures Product(x.f as real, Pow2(x.e), Real(x))
  {
  }

  lemma SixtyFour(e: int)
    ensures Pow2(e + 64) == 18446744073709551616.0 * Pow2(e)
  {
    assert Pow2(8) == 256.0;
    Pow2Add(8, e);
    Pow2Add(8, e + 8);
    Pow2Add(8, e + 16);
    Pow2Add(8, e + 24);
    Pow2Add(8, e + 32);
    Pow2Add(8, e + 40);
    Pow2Add(8, e + 48);
    Pow2Add(8, e + 56);
  }

  lemma ScaledBoundsOf(w: nat, c: nat, r: nat, a: real, b: real, t: real, u: real, unit: real, wa: real, cb: real,
                       low: real, scaled: real, high: real)
    requires w < BIT64 && r == (w * c + BIT63) / BIT64 && a > 0.0 && u > 0.0 && unit == 18446744073709551616.0 * u
    requires Product(a, b, u) && Product(w as real, a, wa) && Product(c as real, b, cb) && HalfUnit(cb, t, b)
    requires Product((r - 1) as real, unit, low) && Product(wa, t, scaled) && Product((r + 1) as real, unit, high)
    ensures Between(low, scaled, high)
  {
    var x := a * t;
    assert c as real * u - x == a * (cb - t) by {
      assert c as real * (a * b) == a * (c as real * b);
    }
    ScaledUp(-b, 2.0 * (cb - t), a);
    ScaledUp(2.0 * (cb - t), b, a);
    assert (2.0 * (cb - t)) * a == 2.0 * (a * (cb - t));
    ScaledError(w, c, r, u, x);
    assert w as real * x == wa * t;
  }

  /// ## From the limits to the digits

  lemma DecimalIsProduct(g: Generated)
    requires N.AllDigits(g.digits)
    ensures Product(N.Value(g.digits) as real, Pow10(g.kappa), DecimalReal(g))
  {
  }

  /** The digits lie between the limits, as real numbers. */
  lemma WithinReal(g: Generated, e: int, low: nat, high: nat)
    requires e <= 0 && N.AllDigits(g.digits) && G.Within(g, Power(2, -e), low, high)
    ensures Real(DiyFp(low, e)) <= DecimalReal(g) <= Real(DiyFp(high, e))
  {
    RealIsProduct(DiyFp(low, e));
    RealIsProduct(DiyFp(high, e));
    DecimalIsProduct(g);
    Pow2IsPower(-e);
    Pow2Product(e, -e);
    var one, v, u := Power(2, -e), N.Value(g.digits), Pow2(e);
    if g.kappa >= 0 {
      Pow10IsPower(g.kappa);
      IntegralWithin(v, Power10(g.kappa), one, low, high, u, Real(DiyFp(low, e)), Real(DiyFp(high, e)),
                     DecimalReal(g));
    } else {
      Pow10IsPower(-g.kappa);
      Pow10Product(g.kappa, -g.kappa);
      FractionalWithin(v, Power10(-g.kappa), one, low, high, u, Pow10(g.kappa),
                       Real(DiyFp(low, e)), Real(DiyFp(high, e)), DecimalReal(g));
    }
  }

  lemma Pow10Product(m: int, n: int)
    ensures Product(Pow10(m), Pow10(n), Pow10(m + n))
  {
    Pow10Add(m, n);
  }

  lemma IntegralWithin(v: nat, p: nat, one: nat, low: nat, high: nat, u: real, rl: real, rh: real, rv: real)
    requires low <= v * (p * one) <= high && u > 0.0 && Product(u, one as real, 1.0)
    requires Product(low as real, u, rl) && Product(high as real, u, rh) && Product(v as real, p as real, rv)
    ensures rl <= rv <= rh
  {
    RealProduct(p, one);
    RealProduct(v, p * one);
    var m := v as real * (p as real * one as real);
    ScaledUp(low as real, m, u);
    ScaledUp(m, high as real, u);
    assert m * u == (v as real * p as real) * (u * one as real);
  }

  lemma FractionalWithin(v: nat, p: nat, one: nat, low: nat, high: nat, u: real, t: real, rl: real, rh: real, rv: real)
    requires low * p <= v * one <= high * p && u > 0.0 && t > 0.0
    requires Product(u, one as real, 1.0) && Product(t, p as real, 1.0)
    requires Product(low as real, u, rl) && Product(high as real, u, rh) && Product(v as real, t, rv)
    ensures rl <= rv <= rh
  {
    RealProduct(low, p);
    RealProduct(high, p);
    RealProduct(v, one);
    var l, m, h := low as real * p as real, v as real * one as real, high as real * p as real;
    ScaledUp(l, m, u * t);
    ScaledUp(m, h, u * t);
    assert m * (u * t) == (v as real * t) * (u * one as real);
    assert l * (u * t) == (low as real * u) * (t * p as real);
    assert h * (u * t) == (high as real * u) * (t * p as real);
  }

  lemma BoundariesKeepReal(v: DiyFp)
    requires IsPositiveDouble(v)
    ensures Real(Upper(v)) == Real(Above(v)) && Real(Lower(v)) == Real(Below(v))
    ensures Upper(v).f < BIT64 && Lower(v).f < BIT64
  {
    var h := BoundaryShape(v);
    var s := BoundaryShift(v);
    ShiftKeepsReal(2 * v.f + 1, v.e - 1, s - 1);
    ShiftKeepsReal(Below(v).f, Below(v).e, Below(v).e - Upper(v).e);
  }

  lemma Scale10Cancels(x: real, y: real, p: int)
    requires Scale10(x, p) < Scale10(y, p)
    ensures x < y
  {
    if y <= x { ScaledUp(y, x, Pow10(p)); }
  }

  lemma Unscaled(g: Generated, k: int)
    requires N.AllDigits(g.digits)
    ensures Scale10(DecimalReal(Shifted(g, k)), -k) == DecimalReal(g)
  {
    var x := DecimalReal(Shifted(g, k));
    DecimalIsProduct(Shifted(g, k));
    DecimalIsProduct(g);
    Pow10Product(g.kappa + k, -k);
    Scale10IsProduct(x, -k);
    ProductsRegrouped(N.Value(g.digits) as real, Pow10(g.kappa + k), Pow10(-k), Pow10(g.kappa), x, DecimalReal(g),
                      Scale10(x, -k));
  }

  lemma ProductsRegrouped(v: real, a: real, b: real, ab: real, va: real, vab: real, vab': real)
    requires Product(v, a, va) && Product(a, b, ab) && Product(v, ab, vab) && Product(va, b, vab')
    ensures vab == vab'
  {
    Reassociate(v, a, b);
  }

  function LowLimit(b: Limits): DiyFp {
    DiyFp(b.low, b.e)
  }

  function HighLimit(b: Limits): DiyFp {
    DiyFp(b.high, b.e)
  }

  lemma GeneratedWithin(b: Limits)
    requires CanGenerateFrom(b)
    ensures var g := GeneratedFrom(b);
            g.digits != [] && G.GoodDigits(g.digits) && G.Within(g, Power(2, -b.e), b.low, b.high)
  {
    G.GeneratedWithin(b.high, Power(2, -b.e), b.high - b.low, b.high - b.number);
  }

  lemma GeneratedBetween(b: Limits)
    requires CanGenerateFrom(b)
    ensures var g := GeneratedFrom(b);
            && g.digits != [] && G.GoodDigits(g.digits)
            && Real(LowLimit(b)) <= DecimalReal(g) <= Real(HighLimit(b))
  {
    GeneratedWithin(b);
    WithinReal(GeneratedFrom(b), b.e, b.low, b.high);
  }

  /** The limits lie strictly within the scaled boundaries. */
  lemma LimitsInside(b: Limits, lower: DiyFp, upper: DiyFp, c: DiyFp, p: int)
    requires IsPowerOfTen(c, p) && lower.f < BIT64 && upper.f < BIT64 && Times(lower, c).f > 0 && Times(upper, c).f > 0
    requires LowLimit(b) == DiyFp(Times(lower, c).f + 1, Times(lower, c).e)
    requires HighLimit(b) == DiyFp(Times(upper, c).f - 1, Times(upper, c).e)
    ensures Scale10(Real(lower), p) < Real(LowLimit(b)) && Real(HighLimit(b)) < Scale10(Real(upper), p)
  {
    ScaledBounds(lower, c, p);
    ScaledBounds(upper, c, p);
  }

  lemma LimitsOfInside(v: DiyFp)
    requires IsPositiveDouble(v)
    ensures Scale10(Real(Below(v)), -CachedK(v)) < Real(LowLimit(LimitsOf(v)))
    ensures Real(HighLimit(LimitsOf(v))) < Scale10(Real(Above(v)), -CachedK(v))
  {
    ExponentRange(v);
    CachedSuits(Upper(v).e);
    CachedIsPowerOfTen(CachedIndex(Upper(v).e));
    LimitsFit(v);
    BoundariesKeepReal(v);
    LimitsInside(LimitsOf(v), Lower(v), Upper(v), CachedFor(v), -CachedK(v));
  }

  /** Grisu2 gives the digits of a number between the boundaries of the double. */
  lemma DigitsBetween(v: DiyFp)
    requires IsPositiveDouble(v)
    ensures Real(Below(v)) < DecimalReal(Grisu2(v))
    ensures DecimalReal(Grisu2(v)) < Real(Above(v))
  {
    var g := GeneratedFor(v);
    PrintedBetween(v, g);
  }

  lemma PrintedBetween(v: DiyFp, g: Generated)
    requires IsPositiveDouble(v) && N.AllDigits(g.digits) && Grisu2(v) == Shifted(g, CachedK(v))
    requires Scale10(Real(Below(v)), -CachedK(v)) < DecimalReal(g)
    requires DecimalReal(g) < Scale10(Real(Above(v)), -CachedK(v))
    ensures Real(Below(v)) < DecimalReal(Grisu2(v))
    ensures DecimalReal(Grisu2(v)) < Real(Above(v))
  {
    Cancelled(g, CachedK(v), Grisu2(v), Below(v), Above(v));
  }

  lemma GeneratedFor(v: DiyFp) returns (g: Generated)
    requires IsPositiveDouble(v)
    ensures N.AllDigits(g.digits) && Grisu2(v) == Shifted(g, CachedK(v))
    ensures Scale10(Real(Below(v)), -CachedK(v)) < DecimalReal(g)
    ensures DecimalReal(g) < Scale10(Real(Above(v)), -CachedK(v))
  {
    LimitsCanGenerate(v);
    LimitsOfInside(v);
    GeneratedBetween(LimitsOf(v));
    g := GeneratedFrom(LimitsOf(v));
  }

  lemma Cancelled(g: Generated, k: int, g': Generated, below: DiyFp, above: DiyFp)
    requires N.AllDigits(g.digits) && g' == Shifted(g, k)
    requires Scale10(Real(below), -k) < DecimalReal(g)
    requires DecimalReal(g) < Scale10(Real(above), -k)
    ensures Real(below) < DecimalReal(g')
    ensures DecimalReal(g') < Real(above)
  {
    Unscaled(g, k);
    Scale10Cancels(Real(below), DecimalReal(g'), -k);
    Scale10Cancels(DecimalReal(g'), Real(above), -k);
  }

  /// ## The digits are nearest to the double

  lemma Pow2Greater(m: int, n: int)
    requires m < n
    ensures Pow2(n) >= 2.0 * Pow2(m)
    decreases n - m
  {
    Pow2Step(n - 1);
    if m < n - 1 { Pow2Greater(m, n - 1); }
  }

  /** Another double is beyond a boundary by at least as much as the boundary is away. */
  lemma BoundaryHalfway(v: DiyFp, u: DiyFp)
    requires IsPositiveDouble(v) && IsDouble(u) && u != v
    ensures Real(u) + Real(v) >= 2.0 * Real(Above(v)) || Real(u) + Real(v) <= 2.0 * Real(Below(v))
  {
    RealIsProduct(u);
    RealIsProduct(v);
    BoundaryReals(v);
    if u.e > v.e {
      Pow2Greater(v.e, u.e);
      GreaterDouble(u.f, v.f, Pow2(u.e), Pow2(v.e), Real(u), Real(v), 2.0 * Real(Above(v)));
    } else if u.e < v.e {
      Pow2Greater(u.e, v.e);
      SmallerDouble(u.f, v.f, Pow2(u.e), Pow2(v.e), Real(u), Real(v), 2.0 * Real(Below(v)));
    } else if u.f > v.f {
      NextDouble(u.f, v.f, Pow2(v.e), Real(u), Real(v), 2.0 * Real(Above(v)));
    } else {
      PreviousDouble(u.f, v.f, Pow2(v.e), Real(u), Real(v), 2.0 * Real(Below(v)));
    }
  }

  lemma BoundaryReals(v: DiyFp)
    requires v.f > 0
    ensures Product(2.0 * v.f as real + 1.0, Pow2(v.e), 2.0 * Real(Above(v)))
    ensures Product(2.0 * v.f as real - (if v.f == BIT52 then 0.5 else 1.0), Pow2(v.e), 2.0 * Real(Below(v)))
  {
    RealIsProduct(Above(v));
    RealIsProduct(Below(v));
    Pow2Step(v.e - 1);
    Pow2Step(v.e - 2);
    Halved(2.0 * v.f as real + 1.0, Pow2(v.e - 1), Real(Above(v)), Pow2(v.e));
    if v.f == BIT52 {
      Quartered(2.0 * v.f as real - 0.5, Pow2(v.e - 2), Real(Below(v)), Pow2(v.e));
    } else {
      Halved(2.0 * v.f as real - 1.0, Pow2(v.e - 1), Real(Below(v)), Pow2(v.e));
    }
  }

  lemma Halved(x: real, h: real, xh: real, p: real)
    requires Product(x, h, xh) && p == 2.0 * h
    ensures Product(x, p, 2.0 * xh)
  {
  }

  lemma Quartered(x: real, q: real, xq: real, p: real)
    requires Product(2.0 * x, q, xq) && p == 4.0 * q
    ensures Product(x, p, 2.0 * xq)
  {
  }

  lemma GreaterDouble(uf: nat, vf: nat, q: real, p: real, u: real, v: real, above: real)
    requires vf < BIT53 && uf >= BIT52 && p > 0.0 && q >= 2.0 * p
    requires Product(uf as real, q, u) && Product(vf as real, p, v) && Product(2.0 * vf as real + 1.0, p, above)
    ensures u + v >= above
  {
    var next := vf as real + 1.0;
    var x := next * p;
    ScaledProducts(4503599627370496.0, uf as real, q, 4503599627370496.0 * q, u);
    ScaledProducts(next, 9007199254740992.0, p, x, 9007199254740992.0 * p);
    SumProduct(vf as real, next, p, v, x, above);
  }

  lemma SmallerDouble(uf: nat, vf: nat, q: real, p: real, u: real, v: real, below: real)
    requires vf >= BIT52 && uf < BIT53 && q > 0.0 && p >= 2.0 * q
    requires Product(uf as real, q, u) && Product(vf as real, p, v)
    requires Product(2.0 * vf as real - (if vf == BIT52 then 0.5 else 1.0), p, below)
    ensures u + v <= below
  {
    var low := vf as real - if vf == BIT52 then 0.5 else 1.0;
    var x := low * p;
    ScaledProducts(uf as real, 9007199254740991.0, q, u, 9007199254740991.0 * q);
    ScaledProducts(4503599627370495.5, low, p, 4503599627370495.5 * p, x);
    SumProduct(vf as real, low, p, v, x, below);
  }

  lemma NextDouble(uf: nat, vf: nat, p: real, u: real, v: real, above: real)
    requires uf > vf && p > 0.0
    requires Product(uf as real, p, u) && Product(vf as real, p, v) && Product(2.0 * vf as real + 1.0, p, above)
    ensures u + v >= above
  {
    var next := vf as real + 1.0;
    var x := next * p;
    ScaledProducts(next, uf as real, p, x, u);
    SumProduct(vf as real, next, p, v, x, above);
  }

  lemma PreviousDouble(uf: nat, vf: nat, p: real, u: real, v: real, below: real)
    requires uf < vf && p > 0.0 && Product(uf as real, p, u) && Product(vf as real, p, v)
    requires Product(2.0 * vf as real - (if vf == BIT52 then 0.5 else 1.0), p, below)
    ensures u + v <= below
  {
    var low := vf as real - if vf == BIT52 then 0.5 else 1.0;
    var x := low * p;
    ScaledProducts(uf as real, low, p, u, x);
    SumProduct(vf as real, low, p, v, x, below);
  }

  function RealDistance(x: real, y: real): real {
    if x <= y then y - x else x - y
  }

  lemma NearerThan(x: real, v: DiyFp, u: DiyFp)
    requires IsPositiveDouble(v) && IsDouble(u) && u != v && Real(Below(v)) < x && x < Real(Above(v))
    ensures RealDistance(x, Real(v)) < RealDistance(x, Real(u))
  {
    BoundaryHalfway(v, u);
    BoundariesAround(v);
  }

  lemma BoundariesAround(v: DiyFp)
    requires v.f > 0
    ensures Real(Below(v)) < Real(v) < Real(Above(v))
  {
    RealIsProduct(v);
    BoundaryReals(v);
    var gap := if v.f == BIT52 then 0.5 else 1.0;
    Around(v.f as real, Pow2(v.e), Real(v), 2.0 * Real(Above(v)), 2.0 * Real(Below(v)), gap);
  }

  lemma Around(f: real, p: real, v: real, above: real, below: real, gap: real)
    requires p > 0.0 && gap > 0.0
    requires Product(f, p, v) && Product(2.0 * f + 1.0, p, above) && Product(2.0 * f - gap, p, below)
    ensures below < 2.0 * v < above
  {
    assert gap * p > 0.0;
    assert below == 2.0 * v - gap * p && above == 2.0 * v + p;
  }

  /** The printed digits are nearer to the double than to any other one: reading them gives it back. */
  lemma ReadsBack(v: DiyFp, u: DiyFp)
    requires IsPositiveDouble(v) && IsDouble(u) && u != v
    ensures RealDistance(DecimalReal(Grisu2(v)), Real(v)) < RealDistance(DecimalReal(Grisu2(v)), Real(u))
  {
    DigitsBetween(v);
    NearerThan(DecimalReal(Grisu2(v)), v, u);
  }

  /// ## As it runs

  method NormalizeTo(x: DiyFp, top: nat) returns (y: DiyFp)
    requires x.f > 0
    ensures y == ShiftedUp(x, top)
  {
    var f, e := x.f, x.e;
    while f < top
      invariant f > 0 && ShiftedUp(DiyFp(f, e), top) == ShiftedUp(x, top)
      decreases top - f
    {
      f, e := 2 * f, e - 1;
    }
    y := DiyFp(f, e);
  }

  /** The boundaries of a double, with the exponent of the upper one. */
  method NormalizedBoundaries(v: DiyFp) returns (minus: DiyFp, plus: DiyFp)
    requires IsPositiveDouble(v)
    ensures minus == Lower(v) && plus == Upper(v)
  {
    var pl := NormalizeTo(DiyFp(2 * v.f + 1, v.e - 1), BIT53);
    plus := DiyFp(pl.f * 0x400, pl.e - 10);
    UpperIsFiner(v);
    var mi := if v.f == BIT52 then DiyFp(4 * v.f - 1, v.e - 2) else DiyFp(2 * v.f - 1, v.e - 1);
    minus := ShiftedTo(mi, plus.e);
  }

  /** Scales the double and its boundaries, and generates the digits into the buffer. */
  method PrintDigits(v: DiyFp, buffer: array<JsonText.Byte>) returns (len: nat, k: int)
    requires IsPositiveDouble(v) && buffer.Length >= 28
    modifies buffer
    ensures len <= buffer.Length && Generated(buffer[..len], k) == Grisu2(v)
  {
    var lower, upper := NormalizedBoundaries(v);
    var c := CachedFor(v);
    var number := NormalizeTo(v, BIT63);
    var w, wp, wm := Times(number, c), Times(upper, c), Times(lower, c);
    LimitsCanGenerate(v);
    var kappa;
    len, kappa := GrisuDigitGen.DigitGen(w.f, wp.f - 1, -wp.e, wp.f - 1 - (wm.f + 1), buffer);
    k := kappa + CachedK(v);
  }

  /// ## A double whose digits end in a zero

  /** About 4.51e-277. */
  const LITTLE: DiyFp := DiyFp(4503602550366373, -970)

  lemma LittleBoundaries()
    ensures IsPositiveDouble(LITTLE)
    ensures Upper(LITTLE) == DiyFp(9223378023150332928, -981) && Lower(LITTLE) == DiyFp(9223378023150330880, -981)
    ensures Normalize(LITTLE) == DiyFp(9223378023150331904, -981)
  {
    assert Above(LITTLE) == DiyFp(9007205100732747, -971);
    assert ShiftedUp(Above(LITTLE), BIT53) == Above(LITTLE);
    assert Power(2, 10) == 0x400 && Power(2, 11) == 0x800;
    ShiftIs(LITTLE, BIT63, 11);
  }

  lemma LittlePower()
    ensures IsPositiveDouble(LITTLE) && CachedFor(LITTLE) == DiyFp(0xac2820d9623bf429, 880)
  {
    LittleBoundaries();
    assert CachedIndex(-981) == 79;
    assert CachedRow(26).1 == DiyFp(0xac2820d9623bf429, 880);
  }

  lemma LittleLimits()
    ensures IsPositiveDouble(LITTLE)
    ensures LimitsOf(LITTLE) == Limits(6202604671517851648, 6202604671517852335, 6202604671517853023, -37)
  {
    LittleBoundaries();
    LittlePower();
  }

  /** The digits of this double are 4512988868750000. */
  lemma EndsInZeroExample()
    ensures IsPositiveDouble(LITTLE) && G.EndsInZero(Grisu2(LITTLE).digits)
  {
    LittleLimits();
    LimitsCanGenerate(LITTLE);
    var b := LimitsOf(LITTLE);
    LittleZero();
    Z.ZeroIff(b.high, Power(2, -b.e), b.high - b.low, b.high - b.number);
  }

  lemma LittleZero()
    ensures var f, one := 6202604671517853023, Power(2, 37);
            one > 0 && 1375 < f % one && Z.ZeroAt(f, one, 1375, 688, 8)
  {
    assert Power(2, 4) == 16;
    TenMore(4);
    TenMore(14);
    TenMore(27);
    assert Power(2, 7) == 128;
    TenMore(7);
    TenMore(17);
    assert Power(2, 37) == 137438953472;
    assert Power10(7) == 10000000 && Power10(8) == 100000000;
    assert Z.Remainder(6202604671517853023, 7, 137438953472) == 13750000000;
    assert Grisu.Distance(688, 8) == 68800000000;
  }
}
