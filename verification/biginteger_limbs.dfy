/** Numbers in limbs of 64 bits, lowest limb first: what the loops over the limbs compute. */
module BigIntegerLimbs {
  import opened Powers

  const BASE: nat := 0x1_0000_0000_0000_0000

  type Limb = u: int | 0 <= u < 0x1_0000_0000_0000_0000
  type Limbs = seq<Limb>

  function Val(s: Limbs): nat {
    if s == [] then 0 else s[0] + BASE * Val(s[1..])
  }

  lemma {:induction false} ValAppend(s: Limbs, t: Limbs)
    ensures Val(s + t) == Val(s) + Power(BASE, |s|) * Val(t)
  {
    if s == [] {
      assert s + t == t;
    } else {
      assert (s + t)[1..] == s[1..] + t;
      ValAppend(s[1..], t);
      Distribute(BASE, Val(s[1..]), Power(BASE, |s| - 1) * Val(t));
      Associate(BASE, Power(BASE, |s| - 1), Val(t));
    }
  }

  lemma {:induction false} ValBound(s: Limbs)
    ensures Val(s) < Power(BASE, |s|)
  {
    if s != [] {
      ValBound(s[1..]);
    }
  }

  /** No leading zero limb, unless it is the only one. */
  predicate Normalised(s: Limbs) {
    s != [] && (|s| > 1 ==> s[|s| - 1] != 0)
  }

  lemma NormalisedBound(s: Limbs)
    requires Normalised(s) && |s| > 1
    ensures Power(BASE, |s| - 1) <= Val(s)
  {
    var n := |s| - 1;
    assert s == s[..n] + [s[n]];
    ValAppend(s[..n], [s[n]]);
    assert Val([s[n]]) == s[n] by { assert [s[n]][1..] == []; }
    AtLeast(Power(BASE, n), s[n]);
  }

  /// ## Adding and multiplying

  /** Limb-wise `s + carry`. */
  function Added(s: Limbs, carry: nat): (r: Limbs)
    requires carry < BASE
  {
    if s == [] then if carry > 0 then [carry] else []
    else [(s[0] + carry) % BASE] + Added(s[1..], (s[0] + carry) / BASE)
  }

  lemma {:induction false} AddedVal(s: Limbs, carry: nat)
    requires carry < BASE
    ensures Val(Added(s, carry)) == Val(s) + carry
  {
    if s == [] {
      if carry > 0 { assert [carry][1..] == []; }
    } else {
      var t := s[0] + carry;
      AddedVal(s[1..], t / BASE);
      assert Added(s, carry)[1..] == Added(s[1..], t / BASE);
    }
  }

  /** The loop of an addition: the limbs of `now` up to `i` are final, the others are those of `s`. */
  ghost predicate Adding(s: Limbs, now: Limbs, i: nat, carry: nat, sum: Limbs) {
    && i < |s| == |now| && carry < BASE && now[i + 1..] == s[i + 1..]
    && now[..i + 1] + Added(s[i + 1..], carry) == sum
  }

  lemma AddingStart(s: Limbs, u: nat)
    requires s != [] && u < BASE
    ensures Adding(s, s[0 := (s[0] + u) % BASE], 0, (s[0] + u) / BASE, Added(s, u))
  {
    assert s[0 := (s[0] + u) % BASE][..1] == [(s[0] + u) % BASE];
  }

  lemma AddingStep(s: Limbs, now: Limbs, i: nat, carry: nat, sum: Limbs)
    requires Adding(s, now, i, carry, sum) && i + 1 < |s|
    ensures now[i + 1] == s[i + 1]
    ensures Adding(s, now[i + 1 := (s[i + 1] + carry) % BASE], i + 1, (s[i + 1] + carry) / BASE, sum)
  {
    var digit := (s[i + 1] + carry) % BASE;
    assert now[i + 1] == now[i + 1..][0];
    assert s[i + 1..][1..] == s[i + 2..];
    assert now[i + 1 := digit][..i + 2] == now[..i + 1] + [digit];
    assert now[i + 1 := digit][i + 2..] == now[i + 1..][1..];
  }

  lemma AddingDone(s: Limbs, now: Limbs, i: nat, carry: nat, sum: Limbs)
    requires Adding(s, now, i, carry, sum)
    ensures carry == 0 ==> now == sum
    ensures i + 1 == |s| && carry > 0 ==> now + [carry] == sum
  {
    NoCarry(s[i + 1..]);
    assert now == now[..i + 1] + now[i + 1..];
  }

  lemma {:induction false} NoCarry(s: Limbs)
    ensures Added(s, 0) == s
  {
    if s != [] {
      NoCarry(s[1..]);
      assert s == [s[0]] + s[1..];
    }
  }

  lemma ProductFits(a: nat, b: nat, k: nat)
    requires a < BASE && b < BASE && k < BASE
    ensures 0 <= (a * b + k) / BASE < BASE
  {
    assert a * b <= (BASE - 1) * (BASE - 1) by { ProductBound(a, b, BASE - 1, BASE - 1); }
    QuotientBound(a * b + k);
  }

  lemma ProductBound(a: nat, b: nat, m: nat, n: nat)
    requires a <= m && b <= n
    ensures a * b <= m * n
  {
    assert m * n == a * b + (m - a) * b + m * (n - b);
    assert (m - a) * b >= 0 && m * (n - b) >= 0;
  }

  lemma QuotientBound(x: nat)
    requires x < BASE * BASE
    ensures x / BASE < BASE
  {
  }

  /** Limb-wise `s * u + k`. */
  function Multiplied(s: Limbs, u: nat, k: nat): (r: Limbs)
    requires u < BASE && k < BASE
  {
    if s == [] then if k > 0 then [k] else []
    else
      ProductFits(s[0], u, k);
      [(s[0] * u + k) % BASE] + Multiplied(s[1..], u, (s[0] * u + k) / BASE)
  }

  /** The loop of a multiplication: the first `i` limbs of `now` are final. */
  ghost predicate Multiplying(s: Limbs, now: Limbs, u: nat, i: nat, k: nat, product: Limbs) {
    && i <= |s| == |now| && u < BASE && k < BASE && now[i..] == s[i..]
    && now[..i] + Multiplied(s[i..], u, k) == product
  }

  lemma MultiplyingStart(s: Limbs, u: nat, k: nat)
    requires u < BASE && k < BASE
    ensures Multiplying(s, s, u, 0, k, Multiplied(s, u, k))
  {
    assert s[..0] == [] && s[0..] == s;
  }

  lemma MultiplyingStep(s: Limbs, now: Limbs, u: nat, i: nat, k: nat, product: Limbs)
    requires Multiplying(s, now, u, i, k, product) && i < |s|
    ensures now[i] == s[i]
    ensures Multiplying(s, now[i := (s[i] * u + k) % BASE], u, i + 1, (s[i] * u + k) / BASE, product)
  {
    var digit := (s[i] * u + k) % BASE;
    ProductFits(s[i], u, k);
    assert now[i] == now[i..][0];
    assert s[i..][1..] == s[i + 1..];
    assert now[i := digit][..i + 1] == now[..i] + [digit];
    assert now[i := digit][i + 1..] == now[i..][1..];
  }

  lemma MultiplyingDone(s: Limbs, now: Limbs, u: nat, k: nat, product: Limbs)
    requires Multiplying(s, now, u, |s|, k, product)
    ensures product == if k > 0 then now + [k] else now
  {
    assert s[|s|..] == [] && now[..|s|] == now;
  }

  lemma {:induction false} MultipliedVal(s: Limbs, u: nat, k: nat)
    requires u < BASE && k < BASE
    ensures Val(Multiplied(s, u, k)) == Val(s) * u + k
  {
    if s == [] {
      if k > 0 { assert [k][1..] == []; }
    } else {
      var t := s[0] * u + k;
      ProductFits(s[0], u, k);
      MultipliedVal(s[1..], u, t / BASE);
      assert Multiplied(s, u, k)[1..] == Multiplied(s[1..], u, t / BASE);
      Spread(s[0], Val(s[1..]), u);
    }
  }

  lemma Spread(a: nat, v: nat, u: nat)
    ensures (a + BASE * v) * u == a * u + BASE * (v * u)
  {
  }

  /** The result is normalised again, and one limb longer at most. */
  lemma {:induction false} MultipliedNormalised(s: Limbs, u: nat, k: nat)
    requires Normalised(s) && 0 < u < BASE && k < BASE
    ensures Normalised(Multiplied(s, u, k)) && |s| <= |Multiplied(s, u, k)| <= |s| + 1
  {
    ProductFits(s[0], u, k);
    var t := s[0] * u + k;
    var more := Multiplied(s[1..], u, t / BASE);
    assert Multiplied(s, u, k) == [t % BASE] + more;
    if |s| > 1 {
      MultipliedNormalised(s[1..], u, t / BASE);
      if |s| == 2 {
        OneLimb(s[1], u, t / BASE);
      }
    } else {
      assert s[1..] == [];
    }
  }

  lemma OneLimb(x: Limb, u: nat, k: nat)
    requires x > 0 && 0 < u < BASE && k < BASE
    ensures var r := Multiplied([x], u, k);
            r[|r| - 1] != 0
  {
    ProductFits(x, u, k);
    assert [x][1..] == [];
    assert x * u > 0;
  }

  lemma {:induction false} AddedNormalised(s: Limbs, carry: nat)
    requires Normalised(s) && carry < BASE
    ensures Normalised(Added(s, carry)) && |s| <= |Added(s, carry)| <= |s| + 1
  {
    var t := s[0] + carry;
    if |s| > 1 {
      AddedNormalised(s[1..], t / BASE);
      assert Added(s, carry)[1..] == Added(s[1..], t / BASE);
      if |s| == 2 {
        assert s[1..][1..] == [];
      }
    } else {
      assert s[1..] == [];
    }
  }

  /// ## Order

  /** Which of two numbers of the same length is greater, by the topmost limbs that differ. */
  function Order(a: Limbs, b: Limbs): (sign: int)
    requires |a| == |b|
    ensures -1 <= sign <= 1
  {
    if a == [] then 0
    else
      var n := |a| - 1;
      if a[n] != b[n] then if a[n] < b[n] then -1 else 1 else Order(a[..n], b[..n])
  }

  function Sign(x: int): int {
    if x < 0 then -1 else if x > 0 then 1 else 0
  }

  lemma {:induction false} OrderIsSign(a: Limbs, b: Limbs)
    requires |a| == |b|
    ensures Order(a, b) == Sign(Val(a) - Val(b))
  {
    if a != [] {
      var n := |a| - 1;
      assert a == a[..n] + [a[n]] && b == b[..n] + [b[n]];
      ValAppend(a[..n], [a[n]]);
      ValAppend(b[..n], [b[n]]);
      assert [a[n]][1..] == [] && [b[n]][1..] == [];
      ValBound(a[..n]);
      ValBound(b[..n]);
      var p := Power(BASE, n);
      if a[n] < b[n] {
        Apart(p, a[n], b[n]);
      } else if b[n] < a[n] {
        Apart(p, b[n], a[n]);
      } else {
        OrderIsSign(a[..n], b[..n]);
      }
    }
  }

  lemma Apart(p: nat, x: nat, y: nat)
    requires x < y
    ensures p * x + p <= p * y
  {
    assert p * y == p * x + p + p * (y - x - 1);
  }

  lemma LongerIsGreater(a: Limbs, b: Limbs)
    requires Normalised(b) && a != [] && |a| < |b|
    ensures Val(a) < Val(b)
  {
    ValBound(a);
    NormalisedBound(b);
    MorePower(BASE, |a|, |b| - 1);
  }

  /// ## Subtracting

  function Behind(b: Limbs): Limbs {
    if b == [] then [] else b[1..]
  }

  function First(b: Limbs): Limb {
    if b == [] then 0 else b[0]
  }

  function Minus(a: Limb, b: Limb, borrow: nat): Limb
    requires borrow <= 1
  {
    (a - borrow - b) % 0x1_0000_0000_0000_0000
  }

  /** Limb-wise `a - b - borrow`: a difference that has become greater shows a borrow. */
  function Subtracted(a: Limbs, b: Limbs, borrow: nat): (r: Limbs)
    requires borrow <= 1
    ensures |r| == |a|
  {
    if a == [] then []
    else
      var d := Minus(a[0], First(b), borrow);
      [d] + Subtracted(a[1..], Behind(b), if d > a[0] then 1 else 0)
  }

  /** A borrow meets a limb of all ones, and gets lost. */
  predicate BorrowLost(a: Limbs, b: Limbs, borrow: nat)
    requires borrow <= 1
  {
    a != [] && b != []
    && (|| (borrow == 1 && b[0] == BASE - 1)
        || BorrowLost(a[1..], b[1..], if Minus(a[0], b[0], borrow) > a[0] then 1 else 0))
  }

  /** One limb: the borrow is right unless it is lost. */
  lemma LimbDifference(a: Limb, b: Limb, borrow: nat)
    requires borrow <= 1
    ensures var d := Minus(a, b, borrow);
            if borrow == 1 && b == BASE - 1 then d == a
            else d == a - borrow - b + if d > a then BASE else 0
  {
    var x := a - borrow - b;
    if x < 0 && x + BASE >= 0 {
      assert x % BASE == (x + BASE) % BASE;
    }
  }

  /** What is left of a greater number is at least the difference, and the difference unless a borrow is lost. */
  lemma {:induction false} SubtractedVal(a: Limbs, b: Limbs, borrow: nat)
    requires borrow <= 1 && |b| <= |a| && Val(a) >= Val(b) + borrow
    ensures Val(Subtracted(a, b, borrow)) >= Val(a) - Val(b) - borrow
    ensures Val(Subtracted(a, b, borrow)) == Val(a) - Val(b) - borrow <==> !BorrowLost(a, b, borrow)
  {
    if a != [] {
      var d := Minus(a[0], First(b), borrow);
      var next := if d > a[0] then 1 else 0;
      LimbDifference(a[0], First(b), borrow);
      assert Val(b) == First(b) + BASE * Val(Behind(b));
      SubtractedVal(a[1..], Behind(b), next);
      assert Val(Subtracted(a, b, borrow)) == d + BASE * Val(Subtracted(a[1..], Behind(b), next)) by {
        assert Subtracted(a, b, borrow)[1..] == Subtracted(a[1..], Behind(b), next);
      }
    }
  }

  lemma BorrowLostExample()
    ensures BorrowLost([0, 0, 1], [1, BASE - 1], 0)
    ensures Val(Subtracted([0, 0, 1], [1, BASE - 1], 0)) > Val([0, 0, 1]) - Val([1, BASE - 1])
  {
    var a: Limbs, b: Limbs := [0, 0, 1], [1, BASE - 1];
    assert a[1..] == [0, 1] && b[1..] == [BASE - 1];
    assert Minus(0, 1, 0) == BASE - 1;
    assert Val(b[1..]) == BASE - 1 by { assert b[1..][1..] == []; }
    assert Val(a[1..]) == BASE by { assert a[1..][1..] == [1] && [1 as Limb][1..] == []; }
    assert BASE * BASE > 1 + BASE * (BASE - 1);
    SubtractedVal(a, b, 0);
  }

  /// ## The length of a difference

  /** How many limbs there are up to the last one that is not zero. */
  function Top(s: Limbs): (n: nat)
    ensures n <= |s| && (n > 0 ==> s[n - 1] != 0)
  {
    if s == [] then 0 else if s[|s| - 1] != 0 then |s| else Top(s[..|s| - 1])
  }

  lemma {:induction false} TopVal(s: Limbs)
    ensures Val(s[..Top(s)]) == Val(s) && (Top(s) > 0 <==> Val(s) > 0)
    ensures Top(s) > 0 ==> Normalised(s[..Top(s)])
  {
    if s == [] || s[|s| - 1] != 0 {
      assert s[..|s|] == s;
      if s != [] { LastNonZero(s); }
    } else {
      var n := |s| - 1;
      TopVal(s[..n]);
      assert s[..n][..Top(s[..n])] == s[..Top(s)];
      assert s == s[..n] + [0];
      ValAppend(s[..n], [0]);
      assert Val([0]) == 0 by { assert [0 as Limb][1..] == []; }
    }
  }

  lemma LastNonZero(s: Limbs)
    requires s != [] && s[|s| - 1] != 0
    ensures Val(s) > 0
  {
    var n := |s| - 1;
    assert s == s[..n] + [s[n]];
    ValAppend(s[..n], [s[n]]);
    assert Val([s[n]]) == s[n] by { assert [s[n]][1..] == []; }
    AtLeast(Power(BASE, n), s[n]);
  }

  lemma TopSnoc(s: Limbs, d: Limb)
    ensures Top(s + [d]) == if d != 0 then |s| + 1 else Top(s)
  {
    assert (s + [d])[..|s|] == s;
  }
}
