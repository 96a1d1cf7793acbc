/** When the generated digits can end in a zero. */
module GrisuZeros {
  import opened JsonText
  import opened JsonNumbers
  import opened Powers
  import opened Grisu
  import opened GrisuDigits
  import I = Itoa

  /// ## Remainders

  lemma RemainderTimesTen(a: nat, one: nat)
    requires one > 0
    ensures (10 * a) % one == (10 * (a % one)) % one
  {
    var q, r := a / one, a % one;
    assert a == q * one + r;
    assert 10 * a == (10 * q) * one + 10 * r;
    DropMultiple(10 * q, one, 10 * r);
  }

  lemma DropMultiple(q: nat, one: nat, r: nat)
    requires one > 0
    ensures (q * one + r) % one == r % one
  {
    var d := r / one;
    assert r == d * one + r % one;
    assert q * one + r == (q + d) * one + r % one;
    Unique(q * one + r, q + d, r % one, one);
  }

  lemma Unique(x: nat, q: nat, r: nat, one: nat)
    requires one > 0 && x == q * one + r && r < one
    ensures x % one == r && x / one == q
  {
    var q', r' := x / one, x % one;
    assert x == q' * one + r';
    Multiple(q as int - q' as int, one);
    assert (q as int - q' as int) * one == r' - r;
  }

  lemma Multiple(k: int, one: nat)
    ensures k >= 1 ==> k * one >= one
    ensures k <= -1 ==> k * one + one <= 0
  {
    assert k * one == (k - 1) * one + one && k * one == (k + 1) * one - one;
    assert k >= 1 ==> (k - 1) * one >= 0;
    assert k <= -1 ==> (k + 1) * one <= 0;
  }

  lemma SmallRemainder(x: nat, one: nat)
    requires one > 0
    ensures x % one <= x && (x < one ==> x % one == x) && (x >= one ==> x % one < x)
  {
    if x < one { Unique(x, 0, x, one); }
  }

  /** The remainder after `n` more decimals. */
  function Remainder(f: nat, n: nat, one: nat): nat
    requires one > 0
  {
    f * Power10(n) % one
  }

  lemma RemainderStep(f: nat, n: nat, one: nat)
    requires one > 0
    ensures Remainder(f, n + 1, one) == 10 * Remainder(f, n, one) % one
  {
    TimesPower(f, n);
    RemainderTimesTen(f * Power10(n), one);
  }

  /** A remainder that has fallen below the distance stays below it. */
  lemma {:induction false} NotBelow(f: nat, one: nat, delta: nat, m: nat, n: nat)
    requires one > 0 && m <= n && Remainder(f, n, one) >= delta * Power10(n)
    ensures Remainder(f, m, one) >= delta * Power10(m)
    decreases n
  {
    if m < n {
      RemainderStep(f, n - 1, one);
      TimesPower(delta, n - 1);
      SmallRemainder(10 * Remainder(f, n - 1, one), one);
      NotBelow(f, one, delta, m, n - 1);
    }
  }

  lemma UnitRemainder(rest: nat, kappa: nat, one: nat)
    requires kappa > 0 && one > 0
    ensures rest % Unit(kappa, one) % one == rest % one && rest % Unit(kappa, one) >= rest % one
  {
    PartRemainder(rest, Power10(kappa - 1), one, Unit(kappa, one));
  }

  lemma PartRemainder(rest: nat, power: nat, one: nat, unit: nat)
    requires one > 0 && unit > 0 && unit == power * one
    ensures rest % unit % one == rest % one && rest % unit >= rest % one
  {
    var q, r := rest / unit, rest % unit;
    assert rest == q * unit + r;
    Associate(q, power, one);
    DropMultiple(q * power, one, r);
    SmallRemainder(r, one);
  }

  /// ## Rounding down to a zero

  /** The last digit becomes zero exactly for a number that is closer to the lower boundary than to the
      number one above it. */
  lemma {:induction false} RoundIsZeroIff(last: nat, delta: nat, rest: nat, unit: nat, wp: nat)
    requires last > 0 && unit > 0 && delta == rest + last * unit
    ensures rest <= delta && (Round(last, delta, rest, unit, wp) == 0 <==> 2 * (delta - wp) < unit)
  {
    RoundStep(last, delta, rest, unit);
    if last > 1 {
      AtLeastUnit(last - 1, unit);
      RoundIsZeroIff(last - 1, delta, rest + unit, unit, wp);
    }
  }

  lemma AtLeastUnit(last: nat, unit: nat)
    requires last > 0
    ensures last * unit >= unit
  {
    assert last * unit == (last - 1) * unit + unit;
  }

  /** The lower boundary has `k - 1` decimals and the distance to it becomes one with the next; there the
      number is closer to the lower boundary than to the decimal above. */
  predicate ZeroAt(f: nat, one: nat, delta: nat, wp: nat, k: nat)
    requires one > 0
  {
    && 2 <= k
    && Remainder(f, k - 1, one) == delta * Power10(k - 1) < one <= delta * Power10(k)
    && 2 * (delta * Power10(k) - Distance(wp, k)) < one
  }

  lemma LastDigitZeroIff(digits: Text, p2: nat, one: nat, n: nat, delta: nat, wp: nat)
    requires 0 < delta <= p2 < one && 10 * p2 % one < 10 * delta
    ensures EndsInZero(Final(digits, 10 * p2, one, 10 * delta, Distance(wp, n + 1), -(n + 1)).digits) <==>
            p2 == delta && one <= 10 * delta && 2 * (10 * delta - Distance(wp, n + 1)) < one
  {
    var rest, d := 10 * p2, Distance(wp, n + 1);
    NextDigit(rest, one);
    SmallRemainder(rest, one);
    if p2 == delta {
      RoundIsZeroIff(rest / one, rest, rest % one, one, d);
    }
  }

  /** Where the digits stop is the only place where they can end in a zero. */
  lemma OnlyHere(f: nat, one: nat, delta: nat, n: nat, wp: nat, k: nat)
    requires 0 < one && delta * Power10(n) <= Remainder(f, n, one)
    requires Remainder(f, n + 1, one) < delta * Power10(n + 1) && ZeroAt(f, one, delta, wp, k)
    ensures k == n + 1
  {
    if k - 1 > n {
      NotBelow(f, one, delta, n + 1, k - 1);
    } else if k <= n {
      UpTo(delta, k, n);
    }
  }

  lemma {:induction false} FractionalZeroIff(f: nat, delta: nat, p2: nat, one: nat, n: nat, digits: Text, wp: nat)
    requires one > 0 && digits != []
    requires p2 == Remainder(f, n, one) && 0 < delta * Power10(n) <= p2 < one && (n == 0 ==> delta < p2)
    ensures EndsInZero(Fractional(p2, one, n, digits, delta * Power10(n), wp).digits) <==>
            exists k :: ZeroAt(f, one, delta, wp, k)
    decreases one - delta * Power10(n)
  {
    TimesPower(delta, n);
    RemainderStep(f, n, one);
    if 10 * p2 % one < delta * Power10(n + 1) {
      LastDigitZeroIff(digits, p2, one, n, delta * Power10(n), wp);
      forall k | ZeroAt(f, one, delta, wp, k) ensures k == n + 1 { OnlyHere(f, one, delta, n, wp, k); }
      assert ZeroAt(f, one, delta, wp, n + 1) <==>
             n > 0 && p2 == delta * Power10(n) && one <= 10 * p2 && 2 * (10 * p2 - Distance(wp, n + 1)) < one;
    } else {
      FractionalZeroIff(f, delta, 10 * p2 % one, one, n + 1, More(digits, 10 * p2, one), wp);
    }
  }

  lemma UpTo(delta: nat, m: nat, n: nat)
    requires m <= n
    ensures delta * Power10(m) <= delta * Power10(n)
  {
    MorePower(10, m, n);
    Monotone(Power10(m), Power10(n), delta);
  }

  lemma FinalNonZero(digits: Text, rest: nat, unit: nat, delta: nat, wp: nat, kappa: int)
    requires unit > 0 && rest < 10 * unit && rest % unit <= delta < rest
    ensures !EndsInZero(Final(digits, rest, unit, delta, wp, kappa).digits)
  {
    NextDigit(rest, unit);
  }

  lemma {:induction false} IntegralZeroIff(f: nat, rest: nat, one: nat, kappa: nat, digits: Text, delta: nat, wp: nat)
    requires 0 < one && rest < Power10(kappa) * one && 0 < delta < rest
    requires digits == [] ==> kappa > 0 && rest >= Unit(kappa, one)
    requires rest % one == f % one
    ensures EndsInZero(Integral(rest, one, kappa, digits, delta, wp).digits) <==>
            delta < f % one && exists k :: ZeroAt(f, one, delta, wp, k)
    decreases kappa
  {
    if kappa == 0 {
      SmallRemainder(rest, one);
      assert Remainder(f, 0, one) == rest;
      FractionalZeroIff(f, delta, rest, one, 0, digits, wp);
    } else {
      var unit := Unit(kappa, one);
      UnitRemainder(rest, kappa, one);
      NextDigit(rest, unit);
      if rest % unit <= delta {
        FinalNonZero(digits, rest, unit, delta, wp, kappa - 1);
      } else {
        IntegralZeroIff(f, rest % unit, one, kappa - 1, More(digits, rest, unit), delta, wp);
      }
    }
  }

  /** The generated digits end in a zero if and only if the lower boundary comes out exactly, in fewer
      decimals than the distance to it needs to exceed one, and the number is closest to it. */
  lemma ZeroIff(f: nat, one: nat, delta: nat, wp: nat)
    requires CanGenerate(f, one, delta)
    ensures EndsInZero(Generate(f, one, delta, wp).digits) <==>
            delta < f % one && exists k :: ZeroAt(f, one, delta, wp, k)
  {
    IntegralPartFits(f, one);
    IntegralZeroIff(f, f, one, CountDecimalDigit32(f / one), [], delta, wp);
  }

  /** They never do for a number that is at least as close to the upper boundary. */
  lemma NeverZeroAbove(f: nat, one: nat, delta: nat, wp: nat)
    requires CanGenerate(f, one, delta) && 2 * wp <= delta
    ensures !EndsInZero(Generate(f, one, delta, wp).digits)
  {
    ZeroIff(f, one, delta, wp);
    forall k | ZeroAt(f, one, delta, wp, k)
      ensures false
    {
      TwiceDistance(wp, delta, k);
    }
  }

  lemma TwiceDistance(wp: nat, delta: nat, k: nat)
    requires 2 * wp <= delta
    ensures 2 * Distance(wp, k) <= delta * Power10(k)
  {
    var p := Power10(k);
    Monotone(2 * wp, delta, p);
    assert 2 * wp * p == 2 * (wp * p);
    if k < 9 { SmallRemainder(wp * p, WORD); }
  }
}
