/** Shifting limbs by less than their width is multiplying by a power of two. */
module BigIntegerShift {
  import opened Powers
  import opened BigIntegerLimbs

  /** The parts of a limb that stay in their place and that move to the next one. */
  lemma ShiftLimb(x: nat, p: nat, q: nat, c: nat)
    requires p > 0 && q > 0 && p * q == BASE && c < p
    ensures x / q == x * p / BASE && x * p % BASE + c < BASE
    ensures (x * p + c) % BASE == x * p % BASE + c && (x * p + c) / BASE == x * p / BASE
  {
    var h, l := x / q, x % q;
    assert x == q * h + l && l < q;
    assert x * p == BASE * h + l * p by { Rearrange(p, q, h, l); }
    ProductBound(l, p, q - 1, p);
    assert (q - 1) * p == BASE - p by { Less(p, q); }
    Quotients(x * p, h, l * p);
    Quotients(x * p + c, h, l * p + c);
  }

  lemma Rearrange(p: nat, q: nat, h: nat, l: nat)
    ensures (q * h + l) * p == (p * q) * h + l * p
  {
  }

  lemma Less(p: nat, q: nat)
    requires q > 0
    ensures (q - 1) * p == p * q - p
  {
  }

  lemma Quotients(x: nat, h: nat, r: nat)
    requires x == BASE * h + r && r < BASE
    ensures x / BASE == h && x % BASE == r
  {
  }

  lemma PartsFit(x: nat, p: nat, q: nat)
    requires x < BASE && p > 0 && q > 0 && p * q == BASE
    ensures x / q < p
  {
    assert x == (x / q) * q + x % q;
    Cancel(x / q, p, q);
  }

  lemma Cancel(h: nat, p: nat, q: nat)
    requires h * q < p * q
    ensures h < p
  {
    if h >= p { ProductBound(p, q, h, q); }
  }

  /** The limb that is written for position `i` of the result. */
  function ShiftedLimb(s: Limbs, i: nat, p: nat, q: nat): Limb
    requires i <= |s| && 0 < p < BASE && q > 0 && p * q == BASE
  {
    LimbFits(s, i, p, q);
    (if i < |s| then s[i] * p % BASE else 0) + (if i > 0 then s[i - 1] / q else 0)
  }

  lemma LimbFits(s: Limbs, i: nat, p: nat, q: nat)
    requires i <= |s| && 0 < p < BASE && q > 0 && p * q == BASE
    ensures (if i < |s| then s[i] * p % BASE else 0) + (if i > 0 then s[i - 1] / q else 0) < BASE
  {
    if i > 0 { PartsFit(s[i - 1], p, q); }
    if i < |s| { ShiftLimb(s[i], p, q, if i > 0 then s[i - 1] / q else 0); }
  }

  /** All of them, with one more limb than there was. */
  function ShiftedLimbs(s: Limbs, p: nat, q: nat): (w: Limbs)
    requires 0 < p < BASE && q > 0 && p * q == BASE
    ensures |w| == |s| + 1
  {
    seq(|s| + 1, i requires 0 <= i <= |s| => ShiftedLimb(s, i, p, q))
  }

  /** `(digits_[i] << interShift) | (digits_[i - 1] >> (kTypeBit - interShift))`. */
  method WrittenLimb(top: Limb, below: Limb, p: nat, q: nat, ghost s: Limbs, ghost i: nat) returns (limb: Limb)
    requires 0 < p < BASE && q > 0 && p * q == BASE && i <= |s|
    requires top == (if i < |s| then s[i] else 0) && below == if i > 0 then s[i - 1] else 0
    ensures limb == ShiftedLimbs(s, p, q)[i]
  {
    LimbFits(s, i, p, q);
    limb := top * p % BASE + below / q;
    assert limb == ShiftedLimb(s, i, p, q);
  }

  /** What has been shifted out of the limbs below position `i`. */
  function ShiftedOut(s: Limbs, i: nat, q: nat): nat
    requires i <= |s| && q > 0
  {
    if i > 0 then s[i - 1] / q else 0
  }

  /** From position `i` on, the written limbs are the multiplied ones, with a zero limb behind them if
      nothing is shifted out at the top. */
  lemma {:induction false} ShiftedIsMultiplied(s: Limbs, i: nat, p: nat, q: nat, w: Limbs)
    requires i <= |s| && 0 < p < BASE && q > 0 && p * q == BASE
    requires w == ShiftedLimbs(s, p, q)
    ensures ShiftedOut(s, i, q) < p
    ensures w[i..] == Multiplied(s[i..], p, ShiftedOut(s, i, q)) + (if w[|s|] == 0 then [0] else [])
    decreases |s| - i
  {
    var k := ShiftedOut(s, i, q);
    if i > 0 {
      PartsFit(s[i - 1], p, q);
    }
    if i == |s| {
      assert s[i..] == [] && w[i..] == [w[i]] && w[i] == ShiftedLimb(s, i, p, q);
    } else {
      ShiftLimb(s[i], p, q, k);
      ShiftedIsMultiplied(s, i + 1, p, q, w);
      assert s[i..][1..] == s[i + 1..];
      ProductFits(s[i], p, k);
      assert w[i] == ShiftedLimb(s, i, p, q);
      assert w[i..] == [w[i]] + w[i + 1..];
    }
  }

  lemma {:induction false} Zeros(n: nat)
    ensures Val(seq(n, i => 0)) == 0
  {
    if n > 0 {
      assert seq(n, i => 0 as Limb)[1..] == seq(n - 1, i => 0 as Limb);
      Zeros(n - 1);
    }
  }

  lemma BehindZeros(n: nat, s: Limbs, t: Limbs)
    requires |t| == n + |s| && t[n..] == s && forall i :: 0 <= i < n ==> t[i] == 0
    ensures Val(t) == Power(BASE, n) * Val(s)
    ensures Normalised(s) && s != [0] ==> Normalised(t)
  {
    Zeros(n);
    assert t == t[..n] + s;
    assert t[..n] == seq(n, i => 0 as Limb);
    ValAppend(t[..n], s);
    if s != [] {
      assert t[|t| - 1] == s[|s| - 1];
    }
  }

  lemma WholeAndPart(offset: nat, part: nat)
    ensures Power(2, 64 * offset + part) == Power(BASE, offset) * Power(2, part)
  {
    PowerAdd(2, 64 * offset, part);
    LimbPower(offset);
  }

  lemma {:induction false} LimbPower(offset: nat)
    ensures Power(2, 64 * offset) == Power(BASE, offset)
  {
    if offset > 0 {
      LimbPower(offset - 1);
      PowerAdd(2, 64, 64 * (offset - 1));
      PowersOfTwo();
      assert 64 + 64 * (offset - 1) == 64 * offset;
    }
  }

  lemma Complement(part: nat)
    requires 0 < part < 64
    ensures Power(2, part) * Power(2, 64 - part) == BASE && 0 < Power(2, part) < BASE && Power(2, 64 - part) > 0
  {
    PowerAdd(2, part, 64 - part);
    PowersOfTwo();
    assert Power(2, 64 - part) == 2 * Power(2, 63 - part);
    TwiceIsMore(Power(2, part), Power(2, 63 - part));
  }

  lemma TwiceIsMore(p: nat, h: nat)
    requires p > 0 && h > 0
    ensures p < p * (2 * h)
  {
    AtLeast(p, h);
    assert p * (2 * h) == 2 * (p * h);
  }
}
