/** What the generated digits are: decimals in the interval, without a zero at the front, and when
  there can be one at the end. */
module GrisuDigits {
  import opened JsonText
  import opened JsonNumbers
  import opened Powers
  import opened Grisu
  import I = Itoa

  /** The decimals lie between `low` and `f`, both over `one`. */
  predicate Within(g: Generated, one: nat, low: int, f: nat)
    requires AllDigits(g.digits)
  {
    if g.kappa >= 0 then
      low <= Value(g.digits) * (Power10(g.kappa) * one) <= f
    else
      low * Power10(-g.kappa) <= Value(g.digits) * one <= f * Power10(-g.kappa)
  }

  lemma ValueAppend(digits: Text, d: nat)
    requires AllDigits(digits) && d < 10
    ensures AllDigits(digits + [I.Digit(d)]) && Value(digits + [I.Digit(d)]) == 10 * Value(digits) + d
  {
    assert (digits + [I.Digit(d)])[..|digits|] == digits;
  }

  predicate GoodDigits(digits: Text) {
    AllDigits(digits) && (digits != [] ==> digits[0] != '0' as int)
  }

  /** What has been generated and what remains add up to the whole. */
  predicate AddsUp(total: nat, digits: Text, unit: nat, rest: nat)
    requires AllDigits(digits)
  {
    total == Value(digits) * unit + rest
  }

  lemma MoreAddsUp(total: nat, digits: Text, rest: nat, unit: nat)
    requires GoodDigits(digits) && unit > 0 && rest < 10 * unit && (digits == [] ==> rest >= unit)
    requires AddsUp(total, digits, 10 * unit, rest)
    ensures GoodDigits(More(digits, rest, unit))
    ensures AddsUp(total, More(digits, rest, unit), unit, rest % unit)
  {
    NextDigit(rest, unit);
    var d := rest / unit;
    ValueAppend(digits, d);
    Regroup(Value(digits), d, unit);
  }

  lemma Regroup(v: nat, d: nat, unit: nat)
    ensures (10 * v + d) * unit == v * (10 * unit) + d * unit
  {
  }

  /** Rounding the last digit moves within the distance. */
  lemma FinalWithin(total: nat, digits: Text, rest: nat, unit: nat, delta: nat, wp: nat, kappa: int)
    requires GoodDigits(digits) && unit > 0 && rest < 10 * unit && rest % unit <= delta <= rest
    requires digits == [] ==> delta < rest
    requires AddsUp(total, digits, 10 * unit, rest)
    ensures var g := Final(digits, rest, unit, delta, wp, kappa);
            && g.kappa == kappa && g.digits != [] && GoodDigits(g.digits)
            && total - delta <= Value(g.digits) * unit <= total
    ensures delta < rest ==>
              var g := Final(digits, rest, unit, delta, wp, kappa); g.digits[|g.digits| - 1] != '0' as int
  {
    NextDigit(rest, unit);
    var d := rest / unit;
    var digit := Round(d, delta, rest % unit, unit, wp);
    ValueAppend(digits, digit);
    Lowered(Value(digits), d, digit, unit);
  }

  lemma Lowered(v: nat, d: nat, digit: nat, unit: nat)
    requires digit <= d
    ensures (10 * v + digit) * unit == v * (10 * unit) + d * unit - (d - digit) * unit
    ensures (d - digit) * unit >= 0
  {
    Regroup(v, digit, unit);
    assert (d - digit) * unit + digit * unit == d * unit;
  }

  lemma Difference(a: nat, b: nat, p: nat)
    requires b <= a
    ensures (a - b) * p == a * p - b * p
  {
  }

  lemma {:induction false} IntegralWithin(f: nat, rest: nat, one: nat, kappa: nat, digits: Text, delta: nat, wp: nat)
    requires 0 < one && rest < Power10(kappa) * one && 0 < delta < rest
    requires digits == [] ==> kappa > 0 && rest >= Unit(kappa, one)
    requires GoodDigits(digits) && AddsUp(f, digits, Power10(kappa) * one, rest)
    ensures var g := Integral(rest, one, kappa, digits, delta, wp);
            g.digits != [] && GoodDigits(g.digits) && Within(g, one, f - delta, f)
    decreases kappa
  {
    if kappa == 0 {
      FractionalWithin(f, delta, rest, one, 0, digits, delta, wp);
    } else {
      var unit := Unit(kappa, one);
      if rest % unit <= delta {
        FinalWithin(f, digits, rest, unit, delta, wp, kappa - 1);
      } else {
        MoreAddsUp(f, digits, rest, unit);
        IntegralWithin(f, rest % unit, one, kappa - 1, More(digits, rest, unit), delta, wp);
      }
    }
  }

  lemma {:induction false} FractionalWithin(f: nat, delta0: nat, p2: nat, one: nat, n: nat, digits: Text, delta: nat,
                                            wp: nat)
    requires 0 < delta <= p2 < one && digits != [] && GoodDigits(digits) && delta0 <= f
    requires AddsUp(f * Power10(n), digits, one, p2) && delta == delta0 * Power10(n)
    ensures var g := Fractional(p2, one, n, digits, delta, wp);
            g.digits != [] && GoodDigits(g.digits) && Within(g, one, f - delta0, f)
    decreases one - delta
  {
    TenTimesMore(f, n, digits, one, p2);
    TimesPower(delta0, n);
    var rest := 10 * p2;
    if rest % one < 10 * delta {
      FinalWithin(f * Power10(n + 1), digits, rest, one, 10 * delta, Distance(wp, n + 1), -(n + 1));
      Difference(f, delta0, Power10(n + 1));
    } else {
      MoreAddsUp(f * Power10(n + 1), digits, rest, one);
      FractionalWithin(f, delta0, rest % one, one, n + 1, More(digits, rest, one), 10 * delta, wp);
    }
  }

  lemma TimesPower(a: nat, n: nat)
    ensures a * Power10(n + 1) == 10 * (a * Power10(n))
  {
  }

  lemma TenTimesMore(f: nat, n: nat, digits: Text, one: nat, p2: nat)
    requires AllDigits(digits) && AddsUp(f * Power10(n), digits, one, p2)
    ensures AddsUp(f * Power10(n + 1), digits, 10 * one, 10 * p2)
  {
    TimesPower(f, n);
    assert Value(digits) * (10 * one) == 10 * (Value(digits) * one);
  }

  /** The generated decimals lie within the allowed distance below the upper boundary, and do not begin with a zero. */
  lemma GeneratedWithin(f: nat, one: nat, delta: nat, wp: nat)
    requires CanGenerate(f, one, delta)
    ensures var g := Generate(f, one, delta, wp);
            g.digits != [] && GoodDigits(g.digits) && Within(g, one, f - delta, f)
  {
    IntegralPartFits(f, one);
    var k := CountDecimalDigit32(f / one);
    assert Value([]) * (Power10(k) * one) == 0;
    IntegralWithin(f, f, one, k, [], delta, wp);
  }

  /// ## Trailing zeros

  predicate EndsInZero(digits: Text) {
    digits != [] && digits[|digits| - 1] == '0' as int
  }
}
