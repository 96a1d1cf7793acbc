/** The digit generation as it runs: on 64-bit words, into a buffer. */
module GrisuDigitGen {
  import opened JsonText
  import opened JsonNumbers
  import opened Powers
  import opened Grisu
  import G = GrisuDigits
  import Z = GrisuZeros
  import I = Itoa

  /** Decrements the last digit as long as that brings it closer. */
  method GrisuRound(buffer: array<Byte>, len: nat, delta: nat, start: nat, tenKappa: nat, wp: nat, ghost last: nat)
    requires 0 < len <= buffer.Length && last < 10 && buffer[len - 1] == I.Digit(last)
    requires start <= delta <= start + last * tenKappa && tenKappa > 0 && delta < WORD
    modifies buffer
    ensures buffer[len - 1] == I.Digit(Round(last, delta, start, tenKappa, wp))
    ensures forall i :: 0 <= i < buffer.Length && i != len - 1 ==> buffer[i] == old(buffer[i])
  {
    var rest := start;
    ghost var digit := last;
    while rest < wp && delta - rest >= tenKappa && (rest + tenKappa < wp || wp - rest > rest + tenKappa - wp)
      invariant rest <= delta <= rest + digit * tenKappa && digit <= last && buffer[len - 1] == I.Digit(digit)
      invariant Round(digit, delta, rest, tenKappa, wp) == Round(last, delta, start, tenKappa, wp)
      invariant forall i :: 0 <= i < buffer.Length && i != len - 1 ==> buffer[i] == old(buffer[i])
      decreases delta - rest
    {
      RoundStep(digit, delta, rest, tenKappa);
      digit := digit - 1;
      assert I.Digit(digit) == buffer[len - 1] - 1;
      buffer[len - 1] := buffer[len - 1] - 1;
      rest := rest + tenKappa;
      assert rest < WORD;
    }
  }

  lemma SplitDigits(p1: nat, p2: nat, one: nat, power: nat)
    requires p2 < one && power > 0
    ensures power * one > 0
    ensures (p1 * one + p2) / (power * one) == p1 / power
    ensures (p1 * one + p2) % (power * one) == p1 % power * one + p2
  {
    var q, r := p1 / power, p1 % power;
    assert p1 == q * power + r;
    assert (q * power + r) * one == q * (power * one) + r * one;
    Monotone(r + 1, power, one);
    assert (r + 1) * one == r * one + one;
    Z.Unique(p1 * one + p2, q, r * one + p2, power * one);
  }

  /** `if (d || *len) buffer[(*len)++] = '0' + d`. */
  method Append(buffer: array<Byte>, len: nat, d: nat) returns (len': nat)
    requires d < 10 && len < buffer.Length
    modifies buffer
    ensures len' <= len + 1 && buffer[..len'] == Appended(old(buffer[..len]), d)
  {
    len' := len;
    if d != 0 || len != 0 {
      buffer[len] := I.Digit(d);
      len' := len + 1;
    }
  }

  const MAX_ONE: nat := 0x1000_0000_0000_0000

  lemma OneBounds(shift: nat)
    requires 32 <= shift <= 60
    ensures 0 < Power(2, shift) <= MAX_ONE
  {
    PowersOfTwo();
    PowerAdd(2, shift, 60 - shift);
    AtLeast(Power(2, shift), Power(2, 60 - shift));
  }

  /** How many fractional digits there can be before the distance exceeds one. */
  lemma FewFractionalDigits(delta: nat, n: nat)
    requires 0 < delta && delta * Power10(n) < MAX_ONE
    ensures n <= 18
  {
    if n >= 19 {
      MorePower(10, 19, n);
      Nineteen();
      Monotone(1, delta, Power10(n));
    }
  }

  lemma Nineteen()
    ensures Power10(19) == 10000000000000000000
  {
    I.SmallPowers();
    assert Power10(17) == 100000000000000000 && Power10(18) == 1000000000000000000;
  }

  /** The digit that was appended last is rounded. */
  method RoundLast(buffer: array<Byte>, len: nat, remaining: nat, unit: nat, delta: nat, wp: nat,
                   ghost digits: Text, ghost rest: nat, ghost kappa: int)
    requires 0 < unit && rest < 10 * unit && remaining == rest % unit <= delta <= rest && delta < WORD
    requires digits == [] ==> rest >= unit
    requires len <= buffer.Length && buffer[..len] == More(digits, rest, unit)
    modifies buffer
    ensures buffer[..len] == Final(digits, rest, unit, delta, wp, kappa).digits
  {
    NextDigit(rest, unit);
    assert buffer[..len][|digits|] == buffer[|digits|];
    GrisuRound(buffer, len, delta, remaining, unit, wp, rest / unit);
    assert old(buffer[..len])[..|digits|] == digits;
    assert buffer[..len] == buffer[..len - 1] + [buffer[len - 1]];
    assert buffer[..len - 1] == digits;
  }

  /** The loop for the fraction: multiplies by ten, and takes the integral part away. */
  method FractionDigits(buffer: array<Byte>, start: nat, fraction: nat, one: nat, delta0: nat, wp: nat)
    returns (len: nat, kappa: int)
    requires 0 < start <= 9 && buffer.Length >= 28
    requires 0 < delta0 < fraction < one <= MAX_ONE
    modifies buffer
    ensures len <= buffer.Length
    ensures Generated(buffer[..len], kappa) == Fractional(fraction, one, 0, old(buffer[..start]), delta0, wp)
  {
    ghost var goal := Fractional(fraction, one, 0, buffer[..start], delta0, wp);
    var p2, delta := fraction, delta0;
    len, kappa := start, 0;
    while true
      invariant 0 < delta <= p2 < one && kappa <= 0 && delta == delta0 * Power10(-kappa)
      invariant 0 < len <= 9 - kappa && len <= buffer.Length
      invariant goal == Fractional(p2, one, -kappa, buffer[..len], delta, wp)
      decreases one - delta
    {
      FewFractionalDigits(delta0, -kappa);
      G.TimesPower(delta0, -kappa);
      ghost var digits := buffer[..len];
      var rest := 10 * p2;
      delta := 10 * delta;
      assert rest < WORD && delta < WORD;
      NextDigit(rest, one);
      len := Append(buffer, len, rest / one);
      p2 := rest % one;
      kappa := kappa - 1;
      if p2 < delta {
        RoundLast(buffer, len, p2, one, delta, Distance(wp, -kappa), digits, rest, kappa);
        return;
      }
    }
  }

  /** One digit of the integral part, and what remains, from the parts of the remainder. */
  method IntegralStep(p1: nat, p2: nat, one: nat, power: nat, ghost rest: nat, unit: nat)
    returns (d: nat, p1': nat, tmp: nat)
    requires p2 < one && power > 0 && unit == power * one && rest == p1 * one + p2 && rest < 10 * unit
    ensures unit > 0 && d == rest / unit < 10 && tmp == rest % unit <= rest && tmp == p1' * one + p2
  {
    SplitDigits(p1, p2, one, power);
    NextDigit(rest, unit);
    d, p1' := p1 / power, p1 % power;
    tmp := p1' * one + p2;
    Z.SmallRemainder(rest, unit);
  }

  /** One turn of the loop for the integral part. */
  method NextIntegral(buffer: array<Byte>, len: nat, p1: nat, p2: nat, one: nat, left: nat, unit: nat, ghost rest: nat)
    returns (len': nat, p1': nat, tmp: nat)
    requires p2 < one && left > 0 && unit == Unit(left, one) && rest == p1 * one + p2 && rest < 10 * unit
    requires len < buffer.Length && (len == 0 ==> rest >= unit)
    modifies buffer
    ensures tmp == rest % unit <= rest && tmp == p1' * one + p2
    ensures len' <= len + 1 && buffer[..len'] == More(old(buffer[..len]), rest, unit)
  {
    var d;
    d, p1', tmp := IntegralStep(p1, p2, one, Power10(left - 1), rest, unit);
    len' := Append(buffer, len, d);
  }

  /** The loop for the integral part, of which `count` digits are generated at most. */
  method IntegralDigits(buffer: array<Byte>, mp: nat, integral: nat, fraction: nat, one: nat, count: nat, delta: nat,
                        wp: nat)
    returns (done: bool, len: nat, kappa: nat)
    requires fraction < one && 0 < count <= 9 && mp < WORD && buffer.Length >= 9
    requires mp == integral * one + fraction && Unit(count, one) <= mp < Power10(count) * one && 0 < delta < mp
    modifies buffer
    ensures len <= buffer.Length
    ensures done ==> Generated(buffer[..len], kappa) == Integral(mp, one, count, [], delta, wp)
    ensures !done ==> 0 < len <= count && delta < fraction
                      && Integral(mp, one, count, [], delta, wp)
                         == Fractional(fraction, one, 0, buffer[..len], delta, wp)
  {
    ghost var goal := Integral(mp, one, count, [], delta, wp);
    ghost var rest := mp;
    var p1: nat, left := integral, count;
    len := 0;
    assert buffer[..0] == [];
    while left > 0
      invariant 0 <= left <= count && len <= count - left
      invariant rest == p1 * one + fraction && rest <= mp && delta < rest < Power10(left) * one
      invariant len == 0 ==> left > 0 && rest >= Unit(left, one)
      invariant goal == Integral(rest, one, left, buffer[..len], delta, wp)
    {
      var unit := Unit(left, one);
      UnitFits(left, count, one, mp);
      ghost var digits, before := buffer[..len], rest;
      var tmp;
      len, p1, tmp := NextIntegral(buffer, len, p1, fraction, one, left, unit, rest);
      rest, left := tmp, left - 1;
      if tmp <= delta {
        RoundLast(buffer, len, tmp, unit, delta, wp, digits, before, left);
        return true, len, left;
      }
    }
    SmallProduct(p1, one, rest, fraction);
    return false, len, 0;
  }

  lemma SmallProduct(p: nat, one: nat, rest: nat, fraction: nat)
    requires rest == p * one + fraction < Power10(0) * one
    ensures rest == fraction
  {
    assert Power10(0) * one == one;
    if p > 0 { Monotone(1, p, one); }
  }

  /** The weight of a digit does not overflow, as it is not above the boundary. */
  lemma UnitFits(left: nat, count: nat, one: nat, mp: nat)
    requires 0 < left <= count && one > 0 && Unit(count, one) <= mp < WORD
    ensures Unit(left, one) < WORD
  {
    MorePower(10, left - 1, count - 1);
    Monotone(Power10(left - 1), Power10(count - 1), one);
  }

  /** Generates digits for the upper boundary `mp` and the number `w`, both over `2^shift`. */
  method DigitGen(w: nat, mp: nat, shift: nat, delta: nat, buffer: array<Byte>) returns (len: nat, kappa: int)
    requires 32 <= shift <= 60 && w <= mp < WORD && buffer.Length >= 28
    requires CanGenerate(mp, Power(2, shift), delta)
    modifies buffer
    ensures len <= buffer.Length
    ensures Generated(buffer[..len], kappa) == Generate(mp, Power(2, shift), delta, mp - w)
  {
    OneBounds(shift);
    var one := Power(2, shift);
    IntegralPartFits(mp, one);
    var p1, p2 := mp / one, mp % one;
    CountFits(p1);
    Quotient(mp, one);
    var done, l, k := IntegralDigits(buffer, mp, p1, p2, one, CountDecimalDigit32(p1), delta, mp - w);
    len, kappa := l, k;
    if !done {
      len, kappa := FractionDigits(buffer, len, p2, one, delta, mp - w);
    }
  }

  lemma Quotient(x: nat, y: nat)
    requires y > 0
    ensures x == (x / y) * y + x % y
  {
  }
}
