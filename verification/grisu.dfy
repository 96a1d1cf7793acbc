/** Generating the digits of a double: the shortest digits within a distance below an upper boundary.

  Numbers are significands over a common exponent: `one` is the significand of 1. */
module Grisu {
  import opened JsonText
  import opened JsonNumbers
  import opened Powers
  import I = Itoa

  const WORD: nat := 0x1_0000_0000_0000_0000

  /** The decimal exponent and the digits: their value is `Value(digits) * 10^kappa`. */
  datatype Generated = Generated(digits: Text, kappa: int)

  /// ## What is computed

  /** Whether the last digit is to become smaller: the number below is still allowed, and closer to `wp`. */
  predicate Rounds(delta: nat, rest: nat, unit: nat, wp: nat)
    requires rest <= delta
  {
    rest < wp && delta - rest >= unit && (rest + unit < wp || wp - rest > rest + unit - wp)
  }

  /** The last digit after rounding; `rest` is the distance to the upper boundary. */
  function Round(last: nat, delta: nat, rest: nat, unit: nat, wp: nat): (digit: nat)
    requires rest <= delta <= rest + last * unit && unit > 0
    ensures digit <= last && rest + (last - digit) * unit <= delta
    ensures delta < rest + last * unit ==> digit > 0
    decreases delta - rest
  {
    if Rounds(delta, rest, unit, wp) then
      RoundStep(last, delta, rest, unit);
      var digit := Round(last - 1, delta, rest + unit, unit, wp);
      assert (last - digit) * unit == (last - 1 - digit) * unit + unit;
      digit
    else
      LastPositive(last, delta, rest, unit);
      last
  }

  lemma RoundStep(last: nat, delta: nat, rest: nat, unit: nat)
    requires rest <= delta <= rest + last * unit && delta - rest >= unit > 0
    ensures last > 0 && rest + unit + (last - 1) * unit == rest + last * unit
  {
    assert last == 0 ==> last * unit == 0;
    assert last * unit == (last - 1) * unit + unit;
  }

  lemma LastPositive(last: nat, delta: nat, rest: nat, unit: nat)
    requires rest <= delta
    ensures delta < rest + last * unit ==> last > 0
    ensures rest + (last - last) * unit == rest
  {
    assert last == 0 ==> last * unit == 0;
  }

  /** `if (d || *len) buffer[(*len)++] = '0' + d`. */
  function Appended(digits: Text, d: nat): Text
    requires d < 10
  {
    if d != 0 || digits != [] then digits + [I.Digit(d)] else digits
  }

  /** The weight of the next digit when `kappa` integral digits are left. */
  function Unit(kappa: nat, one: nat): (unit: nat)
    requires kappa > 0 && one > 0
    ensures unit > 0 && Power10(kappa) * one == 10 * unit
  {
    TenUnits(Power10(kappa - 1), one);
    Power10(kappa - 1) * one
  }

  lemma TenUnits(power: nat, one: nat)
    ensures (10 * power) * one == 10 * (power * one)
    ensures power > 0 && one > 0 ==> power * one > 0
  {
  }

  lemma NextDigit(rest: nat, unit: nat)
    requires unit > 0 && rest < 10 * unit
    ensures rest / unit < 10 && rest == (rest / unit) * unit + rest % unit
    ensures rest >= unit ==> rest / unit > 0
  {
    TenTimes(unit, rest / unit);
    assert rest / unit == 0 ==> (rest / unit) * unit == 0;
  }

  /** The digit that is generated last, and rounded. */
  function Final(digits: Text, rest: nat, unit: nat, delta: nat, wp: nat, kappa: int): Generated
    requires unit > 0 && rest < 10 * unit && rest % unit <= delta <= rest
  {
    NextDigit(rest, unit);
    Generated(digits + [I.Digit(Round(rest / unit, delta, rest % unit, unit, wp))], kappa)
  }

  /** The digits with one more that is not the last. */
  function More(digits: Text, rest: nat, unit: nat): (more: Text)
    requires unit > 0 && rest < 10 * unit && (digits == [] ==> rest >= unit)
    ensures more != []
  {
    NextDigit(rest, unit);
    Appended(digits, rest / unit)
  }

  /** The digits of `rest`, of which `kappa` integral ones are left, until what remains is within
      `delta`; `wp` is the distance from the upper boundary to the number itself. */
  function Integral(rest: nat, one: nat, kappa: nat, digits: Text, delta: nat, wp: nat): Generated
    requires 0 < one && rest < Power10(kappa) * one && 0 < delta < rest
    requires digits == [] ==> kappa > 0 && rest >= Unit(kappa, one)
    decreases kappa
  {
    if kappa == 0 then Fractional(rest, one, 0, digits, delta, wp)
    else
      var unit := Unit(kappa, one);
      if rest % unit <= delta then Final(digits, rest, unit, delta, wp, kappa - 1)
      else Integral(rest % unit, one, kappa - 1, More(digits, rest, unit), delta, wp)
  }

  /** What the distance to the number has become after `n` fractional digits; forgotten from the ninth on. */
  function Distance(wp: nat, n: nat): nat {
    if n < 9 then wp * Power10(n) % WORD else 0
  }

  /** The digits of the fraction `p2`; `n` of them have been generated. */
  function Fractional(p2: nat, one: nat, n: nat, digits: Text, delta: nat, wp: nat): Generated
    requires 0 < delta <= p2 < one && digits != []
    decreases one - delta
  {
    if 10 * p2 % one < 10 * delta then Final(digits, 10 * p2, one, 10 * delta, Distance(wp, n + 1), -(n + 1))
    else Fractional(10 * p2 % one, one, n + 1, More(digits, 10 * p2, one), 10 * delta, wp)
  }

  function CountDecimalDigit32(n: nat): (k: nat)
    ensures k > 0
  {
    if n < 10 then 1
    else if n < 100 then 2
    else if n < 1000 then 3
    else if n < 10000 then 4
    else if n < 100000 then 5
    else if n < 1000000 then 6
    else if n < 10000000 then 7
    else if n < 100000000 then 8
    else 9
  }

  lemma CountFits(n: nat)
    requires 1 <= n < 1000000000
    ensures var k := CountDecimalDigit32(n);
            k <= 9 && Power10(k - 1) <= n < Power10(k)
  {
    I.SmallPowers();
    assert Power10(3) == 1000 && Power10(5) == 100000 && Power10(6) == 1000000 && Power10(7) == 10000000;
    assert Power10(9) == 10 * Power10(8);
  }

  lemma IntegralPartFits(f: nat, one: nat)
    requires one > 0 && 1 <= f / one < 1000000000
    ensures var k := CountDecimalDigit32(f / one);
            Unit(k, one) <= f < Power10(k) * one
  {
    CountFits(f / one);
    var n, k := f / one, CountDecimalDigit32(f / one);
    assert f == n * one + f % one;
    Monotone(Power10(k - 1), n, one);
    Monotone(n + 1, Power10(k), one);
    assert (n + 1) * one == n * one + one;
  }

  /** What may be generated: there is an integral part of at most nine digits. */
  predicate CanGenerate(f: nat, one: nat, delta: nat) {
    one > 0 && 1 <= f / one < 1000000000 && 0 < delta < f
  }

  /** The digits for the upper boundary `f`, when the number itself is `wp` below it and all numbers
      within `delta` below it are allowed. */
  function Generate(f: nat, one: nat, delta: nat, wp: nat): Generated
    requires CanGenerate(f, one, delta)
  {
    IntegralPartFits(f, one);
    Integral(f, one, CountDecimalDigit32(f / one), [], delta, wp)
  }
}
