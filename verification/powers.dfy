/** Powers, and the laws of products that the solver has to be pointed to. */
module Powers {

  function Power(b: nat, e: nat): (p: nat)
    ensures b > 0 ==> p > 0
  {
    if e == 0 then 1 else b * Power(b, e - 1)
  }

  /** The weight of a decimal. */
  function Power10(n: nat): (p: nat)
    ensures p > 0
  {
    Power(10, n)
  }

  lemma {:induction false} PowerAdd(b: nat, e: nat, f: nat)
    ensures Power(b, e + f) == Power(b, e) * Power(b, f)
  {
    if e > 0 {
      PowerAdd(b, e - 1, f);
      assert Power(b, e + f) == b * Power(b, e - 1 + f);
      Associate(b, Power(b, e - 1), Power(b, f));
    }
  }

  lemma Associate(a: int, b: int, c: int)
    ensures a * (b * c) == (a * b) * c
  {
  }

  lemma Exchange(a: int, b: int, c: int)
    ensures a * (b * c) == b * (a * c)
  {
  }

  lemma Distribute(a: int, b: int, c: int)
    ensures a * (b + c) == a * b + a * c
  {
  }

  lemma AtLeast(a: nat, b: nat)
    requires b > 0
    ensures a <= a * b
  {
    assert a * b == a + a * (b - 1);
  }

  lemma Monotone(a: nat, b: nat, c: nat)
    requires a <= b
    ensures a * c <= b * c
  {
    assert b * c == a * c + (b - a) * c;
  }

  /** At least ten parts are as much as the whole. */
  lemma TenTimes(p: nat, d: nat)
    ensures d >= 10 ==> d * p >= 10 * p
  {
    assert d * p == 10 * p + (d - 10) * p;
  }

  lemma MorePower(b: nat, m: nat, n: nat)
    requires m <= n && b > 0
    ensures Power(b, m) <= Power(b, n)
  {
    PowerAdd(b, m, n - m);
    AtLeast(Power(b, m), Power(b, n - m));
  }

  lemma PowersOfTwo()
    ensures Power(2, 12) == 0x1000 && Power(2, 52) == 0x10_0000_0000_0000
    ensures Power(2, 60) == 0x1000_0000_0000_0000 && Power(2, 64) == 0x1_0000_0000_0000_0000
  {
    assert Power(2, 4) == 16;
    PowerAdd(2, 4, 4);
    PowerAdd(2, 8, 4);
    PowerAdd(2, 12, 12);
    PowerAdd(2, 24, 24);
    PowerAdd(2, 48, 4);
    PowerAdd(2, 52, 8);
    PowerAdd(2, 60, 4);
  }
}
