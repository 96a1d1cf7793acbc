/** Big integers in a fixed buffer of limbs, as they are built from decimals to round doubles exactly. */
module BigIntegers {
  import opened JsonText
  import opened JsonNumbers
  import opened Powers
  import opened BigIntegerLimbs
  import opened BigIntegerShift

  const HALF: nat := 0x1_0000_0000
  const CAPACITY: nat := 3328 / 8
  const TYPE_BIT: nat := 64

  /// ## One limb

  /** The high and low limb of `a * b`, from products of 32-bit halves. */
  method Product(a: Limb, b: Limb) returns (lo: Limb, hi: Limb)
    ensures a * b == hi * BASE + lo
  {
    var a0, a1, b0, b1 := a % HALF, a / HALF, b % HALF, b / HALF;
    HalfProduct(a0, b0);
    HalfProduct(a0, b1);
    HalfProduct(a1, b0);
    HalfProduct(a1, b1);
    var x0, x1, x2, x3: nat := a0 * b0, a0 * b1, a1 * b0, a1 * b1;
    Middle(x0, x1, x2, x3);
    HalvesProduct(a0, a1, b0, b1);
    x1 := x1 + x0 / HALF;
    x1 := (x1 + x2) % BASE;
    if x1 < x2 { x3 := x3 + HALF; }
    assert x3 < BASE;
    lo := x1 % HALF * HALF + x0 % HALF;
    assert x3 + x1 / HALF < BASE by { TopFits(a, b, x3 + x1 / HALF, lo); }
    hi := x3 + x1 / HALF;
  }

  /** Adding up the halves in the middle, with their carry. */
  lemma Middle(x0: nat, x1: nat, x2: nat, x3: nat)
    requires x0 < BASE && x1 <= (HALF - 1) * (HALF - 1) && x2 < BASE
    ensures x1 + x0 / HALF < BASE
    ensures var m := (x1 + x0 / HALF + x2) % BASE;
            (m < x2 <==> x1 + x0 / HALF + x2 >= BASE)
            && x3 * BASE + (x1 + x2) * HALF + x0
               == ((if m < x2 then x3 + HALF else x3) + m / HALF) * BASE + (m % HALF * HALF + x0 % HALF)
  {
  }

  lemma TopFits(a: Limb, b: Limb, hi: nat, lo: nat)
    requires a * b == hi * BASE + lo
    ensures hi < BASE
  {
    ProductBound(a, b, BASE - 1, BASE - 1);
  }

  /** The high and low limb of `a * b + k`. */
  method MulAdd64(a: Limb, b: Limb, k: Limb) returns (low: Limb, high: Limb)
    ensures low == (a * b + k) % BASE && high == (a * b + k) / BASE
  {
    ProductFits(a, b, k);
    var lo, hi := Product(a, b);
    low := (lo + k) % BASE;
    var top: nat := if low < k then hi + 1 else hi;
    CarriedInto(a * b, hi, lo, k);
    Divided(a * b + k, top, low);
    high := top;
  }

  lemma CarriedInto(product: nat, hi: nat, lo: nat, k: nat)
    requires product == hi * BASE + lo && lo < BASE && k < BASE
    ensures var low := (lo + k) % BASE;
            product + k == (if low < k then hi + 1 else hi) * BASE + low
  {
  }

  lemma Divided(x: nat, q: nat, r: nat)
    requires x == q * BASE + r && r < BASE
    ensures x / BASE == q && x % BASE == r
  {
  }

  lemma HalfProduct(a: nat, b: nat)
    requires a < HALF && b < HALF
    ensures a * b <= (HALF - 1) * (HALF - 1)
  {
    ProductBound(a, b, HALF - 1, HALF - 1);
  }

  lemma HalvesProduct(a0: nat, a1: nat, b0: nat, b1: nat)
    ensures (a1 * HALF + a0) * (b1 * HALF + b0) == a1 * b1 * BASE + (a0 * b1 + a1 * b0) * HALF + a0 * b0
  {
  }

  /** One step of the multiplication by a 32-bit number: `k` is the carry. */
  method MulAdd32(digit: Limb, u: nat, k: nat) returns (low: Limb, carry: nat)
    requires u < HALF && k < HALF
    ensures low == (digit * u + k) % BASE && carry == (digit * u + k) / BASE < HALF
  {
    var c, d := digit / HALF, digit % HALF;
    HalfProduct(u, c);
    HalfProduct(u, d);
    var uc, ud := u * c, u * d;
    var p0 := ud + k;
    var p1 := uc + p0 / HALF;
    Pieces(digit, c, d, u);
    Combined(uc, ud, k);
    low := p0 % HALF + p1 % HALF * HALF;
    carry := p1 / HALF;
    Divided(digit * u + k, carry, low);
  }

  lemma Combined(uc: nat, ud: nat, k: nat)
    requires uc <= (HALF - 1) * (HALF - 1) && ud <= (HALF - 1) * (HALF - 1) && k < HALF
    ensures ud + k < BASE && uc + (ud + k) / HALF < BASE
    ensures var p0, p1 := ud + k, uc + (ud + k) / HALF;
            p1 / HALF * BASE + (p0 % HALF + p1 % HALF * HALF) == uc * HALF + ud + k
  {
  }

  lemma Pieces(digit: nat, c: nat, d: nat, u: nat)
    requires digit == c * HALF + d
    ensures digit * u == (u * c) * HALF + u * d
  {
  }

  /// ## The class

  class BigInteger {
    var digits: array<Limb>
    var count: nat

    ghost predicate Valid()
      reads this, digits
    {
      digits.Length == CAPACITY && 1 <= count <= CAPACITY && Normalised(digits[..count])
    }

    ghost function Number(): nat
      reads this, digits
      requires Valid()
    {
      Val(digits[..count])
    }

    constructor (u: Limb)
      ensures Valid() && fresh(digits) && Number() == u && count == 1
    {
      digits := new Limb[CAPACITY];
      count := 1;
      new;
      digits[0] := u;
      OneLimbVal(digits[..1]);
    }

    /** `operator=(uint64_t)`. */
    method Assign(u: Limb)
      requires Valid()
      modifies this`count, digits
      ensures Valid() && digits == old(digits) && Number() == u && count == 1
    {
      digits[0] := u;
      count := 1;
      OneLimbVal(digits[..1]);
    }

    method PushBack(digit: Limb)
      requires digits.Length == CAPACITY && count < CAPACITY
      modifies this`count, digits
      ensures digits == old(digits) && count == old(count) + 1
      ensures digits[..count] == old(digits[..count]) + [digit]
    {
      digits[count] := digit;
      count := count + 1;
    }

    method IsZero() returns (zero: bool)
      requires Valid()
      ensures zero <==> Number() == 0
    {
      zero := count == 1 && digits[0] == 0;
      if count == 1 {
        OneLimbVal(digits[..1]);
      } else {
        NormalisedBound(digits[..count]);
      }
    }

    /** `operator+=(uint64_t)`: a carry shows in a digit that has become smaller. */
    method Add(u: Limb)
      requires Valid() && LimbsOf(Number() + u) <= CAPACITY
      modifies this`count, digits
      ensures Valid() && digits == old(digits) && Number() == old(Number()) + u
      ensures old(count) <= count <= old(count) + 1
    {
      SumFitsLimbs(digits[..count], u, CAPACITY);
      var carry := AddLimbs(u);
      if carry {
        PushBack(1);
      }
    }

    /** The loop over the limbs, up to the last carry. */
    method AddLimbs(u: Limb) returns (lastCarry: bool)
      requires digits.Length == CAPACITY && 1 <= count <= CAPACITY
      modifies digits
      ensures Added(old(digits[..count]), u) == if lastCarry then digits[..count] + [1] else digits[..count]
    {
      ghost var before := digits[..count];
      ghost var sum := Added(before, u);
      AddingStart(before, u);
      var backup := digits[0];
      digits[0] := (digits[0] + u) % BASE;
      ghost var carry: nat := (backup + u) / BASE;
      assert digits[..count] == before[0 := digits[0]];
      for i := 0 to count - 1
        invariant carry == if digits[i] < backup then 1 else 0
        invariant Adding(before, digits[..count], i, carry, sum)
      {
        ghost var now := digits[..count];
        AddingDone(before, now, i, carry, sum);
        if digits[i] >= backup { return false; }
        AddingStep(before, now, i, carry, sum);
        backup := digits[i + 1];
        digits[i + 1] := (digits[i + 1] + 1) % BASE;
        assert digits[..count] == now[i + 1 := digits[i + 1]];
        carry := (backup + 1) / BASE;
      }
      AddingDone(before, digits[..count], count - 1, carry, sum);
      lastCarry := digits[count - 1] < backup;
    }

    /** `operator*=(uint64_t)`. */
    method Multiply64(u: Limb)
      requires Valid() && LimbsOf(Number() * u) <= CAPACITY
      modifies this`count, digits
      ensures Valid() && digits == old(digits) && Number() == old(Number()) * u
      ensures count <= old(count) + 1
    {
      if u == 0 { Assign(0); return; }
      if u == 1 { return; }
      if count == 1 && digits[0] == 1 {
        OneLimbVal(digits[..1]);
        Assign(u);
        return;
      }
      ProductFitsLimbs(digits[..count], u, CAPACITY);
      var k := MultiplyLimbs64(u);
      if k > 0 {
        PushBack(k);
      }
    }

    /** The loop over the limbs, up to the last carry. */
    method MultiplyLimbs64(u: Limb) returns (k: Limb)
      requires Valid()
      modifies digits
      ensures Multiplied(old(digits[..count]), u, 0) == if k > 0 then digits[..count] + [k] else digits[..count]
    {
      ghost var before := digits[..count];
      ghost var product := Multiplied(before, u, 0);
      MultiplyingStart(before, u, 0);
      k := 0;
      for i := 0 to count
        invariant Multiplying(before, digits[..count], u, i, k, product)
      {
        ghost var now := digits[..count];
        MultiplyingStep(before, now, u, i, k, product);
        var low, carry := MulAdd64(digits[i], u, k);
        digits[i] := low;
        assert digits[..count] == now[i := low];
        k := carry;
      }
      MultiplyingDone(before, digits[..count], u, k, product);
    }

    /** `operator*=(uint32_t)`. */
    method Multiply32(u: nat)
      requires Valid() && LimbsOf(Number() * u) <= CAPACITY && u < HALF
      modifies this`count, digits
      ensures Valid() && digits == old(digits) && Number() == old(Number()) * u
      ensures count <= old(count) + 1
    {
      if u == 0 { Assign(0); return; }
      if u == 1 { return; }
      if count == 1 && digits[0] == 1 {
        OneLimbVal(digits[..1]);
        Assign(u);
        return;
      }
      ProductFitsLimbs(digits[..count], u, CAPACITY);
      var k := MultiplyLimbs32(u);
      if k > 0 {
        PushBack(k);
      }
    }

    /** The loop over the limbs, up to the last carry. */
    method MultiplyLimbs32(u: nat) returns (k: nat)
      requires Valid()
      requires u < HALF
      modifies digits
      ensures k < BASE
      ensures Multiplied(old(digits[..count]), u, 0) == if k > 0 then digits[..count] + [k] else digits[..count]
    {
      ghost var before := digits[..count];
      ghost var product := Multiplied(before, u, 0);
      MultiplyingStart(before, u, 0);
      k := 0;
      for i := 0 to count
        invariant Multiplying(before, digits[..count], u, i, k, product) && k < HALF
      {
        ghost var now := digits[..count];
        MultiplyingStep(before, now, u, i, k, product);
        var low, carry := MulAdd32(digits[i], u, k);
        digits[i] := low;
        assert digits[..count] == now[i := low];
        k := carry;
      }
      MultiplyingDone(before, digits[..count], u, k, product);
    }

    /** What a shift asks of the buffer. */
    ghost predicate ShiftFits(shift: nat)
      requires Valid()
      reads this, digits
    {
      var offset := shift / TYPE_BIT;
      Number() == 0 || shift == 0
      || if shift % TYPE_BIT == 0 then 2 * count + offset <= CAPACITY + 1 else count + offset < CAPACITY
    }

    /** A shift by whole limbs moves only the top limb, so that those below have to be in place already. */
    ghost predicate LimbsInPlace(shift: nat)
      requires Valid() && ShiftFits(shift)
      reads this, digits
    {
      var offset := shift / TYPE_BIT;
      Number() == 0 || shift % TYPE_BIT != 0 || digits[offset..offset + count - 1] == digits[..count - 1]
    }

    /** `operator<<=`: multiplies by the power of two, apart from shifts of several limbs by whole limbs. */
    method ShiftLeft(shift: nat)
      requires Valid() && ShiftFits(shift)
      modifies this`count, digits
      ensures Valid() && digits == old(digits)
      ensures Number() == old(Number()) * Power(2, shift) <==> old(LimbsInPlace(shift))
      ensures count <= old(count) + shift / TYPE_BIT + 1
    {
      var zero := IsZero();
      if zero || shift == 0 { return; }
      var offset, interShift := shift / TYPE_BIT, shift % TYPE_BIT;
      WholeAndPart(offset, interShift);
      ghost var v, whole, part := Number(), Power(BASE, offset), Power(2, interShift);
      if interShift == 0 {
        ShiftWholeLimbs(offset);
      } else {
        ShiftWithin(offset, interShift);
      }
      Exchange(whole, v, part);
    }

    /** `memmove`, upwards. */
    method MoveUp(from: nat, to: nat, n: nat)
      requires from < to && to + n <= digits.Length
      modifies digits
      ensures digits[to..to + n] == old(digits[from..from + n])
      ensures digits[..to] == old(digits[..to]) && digits[to + n..] == old(digits[to + n..])
    {
      for i := n downto 0
        invariant digits[to + i..to + n] == old(digits[from + i..from + n])
        invariant digits[..to + i] == old(digits[..to + i]) && digits[to + n..] == old(digits[to + n..])
      {
        assert digits[from + i] == digits[..to + i + 1][from + i];
        digits[to + i] := digits[from + i];
      }
    }

    /** The top limb is moved, with what lies behind it in the buffer; the limbs below stay where they are. */
    method ShiftWholeLimbs(offset: nat)
      requires Valid() && 0 < offset && 2 * count + offset <= CAPACITY + 1 && Number() > 0
      modifies this`count, digits
      ensures Valid() && digits == old(digits) && count == old(count) + offset
      ensures Number() == Power(BASE, offset) * old(Number())
              <==> old(digits[offset..offset + count - 1]) == old(digits[..count - 1])
    {
      ghost var before, all := digits[..count], digits[..];
      var top := count - 1;
      NotZero(before);
      MoveUp(top, top + offset, count);
      ghost var moved := digits[..];
      assert moved[..top + offset] == all[..top + offset] && moved[top + offset] == all[top];
      count := count + offset;
      ClearLow(offset);
      ghost var kept := digits[offset..count];
      assert kept == all[offset..top + offset] + [all[top]];
      assert before == all[..top] + [all[top]];
      TopMoved(all[offset..top + offset], all[..top], all[top], offset, digits[..count]);
    }

    method ShiftWithin(offset: nat, interShift: nat)
      requires Valid() && count + offset < CAPACITY && 0 < interShift < TYPE_BIT && Number() > 0
      modifies this`count, digits
      ensures Valid() && digits == old(digits)
      ensures Number() == Power(BASE, offset) * (old(Number()) * Power(2, interShift))
      ensures count <= old(count) + offset + 1
    {
      ghost var before := digits[..count];
      Complement(interShift);
      ghost var product := Multiplied(before, Power(2, interShift), 0);
      MultipliedVal(before, Power(2, interShift), 0);
      MultipliedNormalised(before, Power(2, interShift), 0);
      NotZero(product);
      ShiftAndCount(offset, interShift);
      BehindZeros(offset, product, digits[..count]);
    }

    /** The limbs that are written, without a zero limb on top. */
    method ShiftAndCount(offset: nat, interShift: nat)
      requires Valid() && count + offset < CAPACITY && 0 < interShift < TYPE_BIT
      modifies this`count, digits
      ensures digits == old(digits) && old(count) + offset <= count <= old(count) + offset + 1
      ensures count <= digits.Length && Power(2, interShift) < BASE
      ensures digits[..count][offset..] == Multiplied(old(digits[..count]), Power(2, interShift), 0)
      ensures forall i :: 0 <= i < offset ==> digits[..count][i] == 0
    {
      ghost var before := digits[..count];
      Complement(interShift);
      ShiftLimbs(offset, interShift);
      ghost var w := digits[offset..offset + count + 1];
      ShiftedIsMultiplied(before, 0, Power(2, interShift), Power(2, TYPE_BIT - interShift), w);
      assert before[0..] == before && w[0..] == w;
      count := count + offset;
      assert digits[count] == w[|before|];
      if digits[count] != 0 { count := count + 1; }
      ghost var shifted := digits[offset..count];
      DroppedZero(w, shifted, Multiplied(before, Power(2, interShift), 0));
      ClearLow(offset);
      assert digits[..count][offset..] == digits[offset..count];
    }

    /** `memset(digits_, 0, offset * sizeof(Type))`. */
    method ClearLow(offset: nat)
      requires offset <= digits.Length
      modifies digits
      ensures forall j :: 0 <= j < offset ==> digits[j] == 0
      ensures forall n :: offset <= n <= digits.Length ==> digits[offset..n] == old(digits[offset..n])
    {
      for j := 0 to offset
        invariant forall k :: 0 <= k < j ==> digits[k] == 0
        invariant forall k :: j <= k < digits.Length ==> digits[k] == old(digits[k])
      {
        digits[j] := 0;
      }
    }

    /** Writes the shifted limbs `offset` higher, from the top down. */
    method ShiftLimbs(offset: nat, interShift: nat)
      requires digits.Length == CAPACITY && 1 <= count && count + offset < CAPACITY && 0 < interShift < TYPE_BIT
      requires 0 < Power(2, interShift) < BASE && Power(2, interShift) * Power(2, TYPE_BIT - interShift) == BASE
      modifies digits
      ensures digits[offset..offset + count + 1]
              == ShiftedLimbs(old(digits[..count]), Power(2, interShift), Power(2, TYPE_BIT - interShift))
    {
      var p, q := Power(2, interShift), Power(2, TYPE_BIT - interShift);
      ghost var before := digits[..count];
      digits[count] := 0;
      ShiftDown(offset, p, q, before);
      var lowest := WrittenLimb(digits[0], 0, p, q, before, 0);
      digits[offset] := lowest;
    }

    /** The loop of the shift, from the top: the limb at `i + 1` is written from those at `i + 1` and `i`. */
    method ShiftDown(offset: nat, p: nat, q: nat, ghost before: Limbs)
      requires 1 <= count && count + offset < digits.Length && |before| == count
      requires 0 < p < BASE && q > 0 && p * q == BASE
      requires digits[count] == 0 && forall j :: 0 <= j < count ==> digits[j] == before[j]
      modifies digits
      ensures digits[0] == before[0]
      ensures forall m :: offset < m <= offset + count ==> digits[m] == ShiftedLimbs(before, p, q)[m - offset]
    {
      ghost var w := ShiftedLimbs(before, p, q);
      for i := count downto 0
        invariant forall j :: 0 <= j < count && j <= i ==> digits[j] == before[j]
        invariant i == count ==> digits[count] == 0
        invariant forall m :: offset + i < m <= offset + count ==> digits[m] == w[m - offset]
      {
        var limb := WrittenLimb(digits[i + 1], digits[i], p, q, before, i + 1);
        digits[i + 1 + offset] := limb;
      }
    }

    /** Multiplies by 5^27 and 5^13 as often as possible, and then by what is left. */
    method MultiplyPow5(exp: nat)
      requires Valid() && LimbsOf(Number() * Power(5, exp)) <= CAPACITY
      modifies this`count, digits
      ensures Valid() && digits == old(digits) && Number() == old(Number()) * Power(5, exp)
    {
      var rest := MultiplyPow27s(exp);
      rest := MultiplyPow13s(rest);
      if rest > 0 {
        SmallPow5(rest);
        Multiply32(Power(5, rest));
      }
    }

    /** The loop that multiplies by 5^27. */
    method MultiplyPow27s(exp: nat) returns (rest: nat)
      requires Valid() && LimbsOf(Number() * Power(5, exp)) <= CAPACITY
      modifies this`count, digits
      ensures Valid() && digits == old(digits) && rest < 27
      ensures Number() * Power(5, rest) == old(Number()) * Power(5, exp)
    {
      Pow5Constants();
      rest := exp;
      while rest >= 27
        invariant Valid() && digits == old(digits)
        invariant Number() * Power(5, rest) == old(Number()) * Power(5, exp)
      {
        PowerSplits(Number(), rest, 27);
        FactorFits(Number() * Power(5, 27), Power(5, rest - 27));
        Multiply64(0x6765C793FA10079D);
        rest := rest - 27;
      }
    }

    /** The loop that multiplies by 5^13. */
    method MultiplyPow13s(exp: nat) returns (rest: nat)
      requires Valid() && exp < 27 && LimbsOf(Number() * Power(5, exp)) <= CAPACITY
      modifies this`count, digits
      ensures Valid() && digits == old(digits) && rest < 13
      ensures Number() * Power(5, rest) == old(Number()) * Power(5, exp)
    {
      Pow5Constants();
      rest := exp;
      while rest >= 13
        invariant Valid() && digits == old(digits) && rest < 27
        invariant Number() * Power(5, rest) == old(Number()) * Power(5, exp)
      {
        PowerSplits(Number(), rest, 13);
        FactorFits(Number() * Power(5, 13), Power(5, rest - 13));
        Multiply32(1220703125);
        rest := rest - 13;
      }
    }

    /** `-1`, `0` or `1`: by the numbers of limbs, and then by the topmost limbs that differ. */
    method Compare(rhs: BigInteger) returns (cmp: int)
      requires Valid() && rhs.Valid()
      ensures cmp == Sign(Number() - rhs.Number())
    {
      if count != rhs.count {
        if count < rhs.count {
          LongerIsGreater(digits[..count], rhs.digits[..rhs.count]);
          return -1;
        } else {
          LongerIsGreater(rhs.digits[..rhs.count], digits[..count]);
          return 1;
        }
      }
      OrderIsSign(digits[..count], rhs.digits[..count]);
      for i := count downto 0
        invariant Order(digits[..count], rhs.digits[..count]) == Order(digits[..i], rhs.digits[..i])
      {
        if digits[i] != rhs.digits[i] {
          return if digits[i] < rhs.digits[i] then -1 else 1;
        }
        assert digits[..i + 1][..i] == digits[..i] && rhs.digits[..i + 1][..i] == rhs.digits[..i];
      }
      return 0;
    }

    /** The absolute difference, and whether it is negative. */
    method Difference(rhs: BigInteger, out: BigInteger) returns (negative: bool)
      requires Valid() && rhs.Valid() && Number() != rhs.Number()
      requires out.Valid() && out != this && out != rhs && out.digits != digits && out.digits != rhs.digits
      modifies out`count, out.digits
      ensures out.Valid() && out.digits == old(out.digits) && negative == (Number() < rhs.Number())
      ensures var (a, b) := if negative then (rhs.Limbs(), Limbs()) else (Limbs(), rhs.Limbs());
              && out.Number() >= Val(a) - Val(b) > 0
              && (out.Number() == Val(a) - Val(b) <==> !BorrowLost(a, b, 0))
    {
      var cmp := Compare(rhs);
      negative := cmp < 0;
      if negative {
        LongerLimbs(rhs.digits[..rhs.count], digits[..count]);
        rhs.SubtractInto(this, out);
      } else {
        LongerLimbs(digits[..count], rhs.digits[..rhs.count]);
        SubtractInto(rhs, out);
      }
    }

    ghost function Limbs(): Limbs
      requires Valid()
      reads this, digits
    {
      digits[..count]
    }

    /** The loop of the difference, from the lowest limb. */
    method SubtractInto(b: BigInteger, out: BigInteger)
      requires Valid() && b.Valid() && b.count <= count && Number() > b.Number()
      requires out.Valid() && out != this && out != b && out.digits != digits && out.digits != b.digits
      modifies out`count, out.digits
      ensures out.Valid() && out.digits == old(out.digits)
      ensures out.Number() >= Number() - b.Number()
      ensures out.Number() == Number() - b.Number() <==> !BorrowLost(Limbs(), b.Limbs(), 0)
    {
      ghost var x, y := Limbs(), b.Limbs();
      ghost var result := DifferenceStart(x, y, out.digits[..0]);
      ghost var before := out.count;
      var borrow := SubtractLimbs(b, out, x, y, result, before);
      DifferenceDone(x, y, borrow, out.digits[..count], out.count, before, result);
      assert out.digits[..out.count] == out.digits[..count][..out.count];
    }

    /** Writes the limbs, and counts them up to the last one that is not zero. */
    method SubtractLimbs(b: BigInteger, out: BigInteger, ghost a: Limbs, ghost bs: Limbs,
                         ghost result: Limbs, ghost before: nat)
      returns (borrow: nat)
      requires digits.Length == b.digits.Length == out.digits.Length == CAPACITY
      requires b.count <= count <= CAPACITY && out != this && out != b
      requires out.digits != digits && out.digits != b.digits
      requires digits[..count] == a && b.digits[..b.count] == bs && out.Differs(a, bs, 0, 0, result, before)
      modifies out`count, out.digits
      ensures out.digits == old(out.digits) && borrow <= 1 && out.Differs(a, bs, count, borrow, result, before)
    {
      borrow := 0;
      for i := 0 to count
        invariant out.digits == old(out.digits) && borrow <= 1 && digits[..count] == a && b.digits[..b.count] == bs
        invariant out.Differs(a, bs, i, borrow, result, before)
      {
        borrow := SubtractLimb(b, out, i, borrow, a, bs, result, before);
      }
    }

    method PutLimb(i: nat, d: Limb)
      requires i < digits.Length
      modifies this`count, digits
      ensures digits == old(digits) && digits[..i + 1] == old(digits[..i]) + [d]
      ensures count == if d != 0 then i + 1 else old(count)
    {
      digits[i] := d;
      if d != 0 { count := i + 1; }
    }

    /** The limbs written up to `i`, and the count that goes with them. */
    ghost predicate Differs(a: Limbs, b: Limbs, i: nat, borrow: nat, result: Limbs, before: nat)
      requires i <= digits.Length && borrow <= 1
      reads this, digits
    {
      && Subtracting(a, b, i, borrow, digits[..i], result)
      && count == if Top(digits[..i]) > 0 then Top(digits[..i]) else before
    }

    method SubtractLimb(b: BigInteger, out: BigInteger, i: nat, borrow: nat, ghost a: Limbs, ghost bs: Limbs,
                        ghost result: Limbs, ghost before: nat)
      returns (borrow': nat)
      requires digits.Length == b.digits.Length == out.digits.Length == CAPACITY
      requires i < count <= CAPACITY && b.count <= CAPACITY && out != this && out != b
      requires out.digits != digits && out.digits != b.digits
      requires digits[..count] == a && b.digits[..b.count] == bs
      requires borrow <= 1 && out.Differs(a, bs, i, borrow, result, before)
      modifies out`count, out.digits
      ensures out.digits == old(out.digits) && borrow' <= 1 && out.Differs(a, bs, i + 1, borrow', result, before)
    {
      ghost var done := out.digits[..i];
      SubtractingStep(a, bs, i, borrow, done, result);
      var d := Minus(digits[i], if i < b.count then b.digits[i] else 0, borrow);
      borrow' := if d > digits[i] then 1 else 0;
      out.PutLimb(i, d);
      TopSnoc(done, d);
    }

    /// ## Decimals

    /** At most nineteen digits fit a limb: there is no overflow. */
    static method ParseUint64(decimals: Text, begin: nat, end: nat) returns (r: Limb)
      requires begin <= end <= |decimals| && AllDigits(decimals) && end - begin <= 19
      ensures r == Value(decimals[begin..end])
    {
      r := 0;
      assert decimals[begin..begin] == [];
      for p := begin to end
        invariant r == Value(decimals[begin..p]) < Power(10, p - begin)
      {
        ValueSnoc(decimals, begin, p);
        Power10Grows(p - begin + 1);
        r := r * 10 + (decimals[p] - '0' as int);
      }
    }

    /** `MultiplyPow5(exp) <<= exp`. */
    method MultiplyPow10(exp: nat)
      requires Valid() && exp <= 19 && LimbsOf(Number() * Power(5, exp)) < CAPACITY
      modifies this`count, digits
      ensures Valid() && digits == old(digits) && Number() == old(Number()) * Power(10, exp)
    {
      ghost var v := Number();
      MultiplyPow5(exp);
      CountIs(digits[..count]);
      ShiftBits(exp);
      Tens(v, exp);
    }

    /** A shift by less than a limb. */
    method ShiftBits(shift: nat)
      requires Valid() && shift < TYPE_BIT && count < CAPACITY
      modifies this`count, digits
      ensures Valid() && digits == old(digits) && Number() == old(Number()) * Power(2, shift)
    {
      ShiftLeft(shift);
    }

    /** Appends digits: `*this = *this * 10^exp + u`. */
    method AppendDecimal64(decimals: Text, begin: nat, end: nat)
      requires begin <= end <= |decimals| && AllDigits(decimals) && end - begin <= 19
      requires Valid() && Number() == Value(decimals[..begin]) && AppendFits(decimals, begin, end)
      modifies this`count, digits
      ensures Valid() && digits == old(digits) && Number() == Value(decimals[..end])
    {
      var u := ParseUint64(decimals, begin, end);
      ValueAppend(decimals, begin, end);
      var zero := IsZero();
      if zero {
        Assign(u);
      } else {
        MultiplyPow10(end - begin);
        Add(u);
      }
    }

    method AppendPart(decimals: Text, i: nat, length: nat)
      requires decimals != [] && AllDigits(decimals) && DecimalsFit(decimals) && i % 19 == 0
      requires 0 < length && i + length <= |decimals| && (length == 19 || (length < 19 && i + length == |decimals|))
      requires Valid() && Number() == Value(decimals[..i])
      modifies this`count, digits
      ensures Valid() && digits == old(digits) && Number() == Value(decimals[..i + length])
    {
      EachAppendFits(decimals, i, i + length);
      AppendDecimal64(decimals, i, i + length);
    }

    /** The constructor from a decimal string. */
    constructor FromDecimals(decimals: Text)
      requires decimals != [] && AllDigits(decimals) && DecimalsFit(decimals)
      ensures Valid() && fresh(digits) && Number() == Value(decimals)
    {
      digits := new Limb[CAPACITY];
      count := 1;
      new;
      digits[0] := 0;
      OneLimbVal(digits[..1]);
      AppendParts(decimals);
    }

    /** The loop of the constructor, nineteen digits at a time. */
    method AppendParts(decimals: Text)
      requires decimals != [] && AllDigits(decimals) && DecimalsFit(decimals)
      requires Valid() && Number() == 0
      modifies this`count, digits
      ensures Valid() && digits == old(digits) && Number() == Value(decimals)
    {
      var i, length: int := 0, |decimals|;
      while length >= 19
        invariant Valid() && digits == old(digits) && i % 19 == 0 && 0 <= length && i + length == |decimals|
        invariant Number() == Value(decimals[..i])
      {
        AppendPart(decimals, i, 19);
        length := length - 19;
        i := i + 19;
      }
      if length > 0 {
        AppendPart(decimals, i, length);
      }
      assert decimals[..|decimals|] == decimals;
    }
  }

  /** What the loop of a difference has written, and what is left to do. */
  predicate Subtracting(a: Limbs, b: Limbs, i: nat, borrow: nat, done: Limbs, result: Limbs)
    requires borrow <= 1
  {
    && i <= |a| && |b| <= |a| && |done| == i
    && result == done + Subtracted(a[i..], if i <= |b| then b[i..] else [], borrow)
  }

  lemma DifferenceStart(a: Limbs, b: Limbs, done: Limbs) returns (result: Limbs)
    requires |b| <= |a| && done == [] && Val(a) > Val(b)
    ensures Subtracting(a, b, 0, 0, done, result) && Top(done) == 0 && Leaves(a, b, result)
  {
    result := Subtracted(a, b, 0);
    SubtractedVal(a, b, 0);
    assert a[0..] == a && b[0..] == b && [] + result == result;
  }

  /** What the limbs of a difference amount to. */
  predicate Leaves(a: Limbs, b: Limbs, result: Limbs) {
    Val(result) >= Val(a) - Val(b) && (Val(result) == Val(a) - Val(b) <==> !BorrowLost(a, b, 0))
  }

  lemma DifferenceDone(a: Limbs, b: Limbs, borrow: nat, done: Limbs, count: nat, before: nat, result: Limbs)
    requires borrow <= 1 && Val(a) > Val(b) && Leaves(a, b, result)
    requires Subtracting(a, b, |a|, borrow, done, result) && count == if Top(done) > 0 then Top(done) else before
    ensures 0 < count <= |done| && Normalised(done[..count]) && Leaves(a, b, done[..count])
  {
    assert done == result;
    TopVal(result);
  }

  lemma SubtractingStep(a: Limbs, b: Limbs, i: nat, borrow: nat, done: Limbs, result: Limbs)
    requires i < |a| && borrow <= 1 && Subtracting(a, b, i, borrow, done, result)
    ensures var d := Minus(a[i], if i < |b| then b[i] else 0, borrow);
            Subtracting(a, b, i + 1, if d > a[i] then 1 else 0, done + [d], result)
  {
    var rest := if i <= |b| then b[i..] else [];
    var d := Minus(a[i], if i < |b| then b[i] else 0, borrow);
    assert a[i..][1..] == a[i + 1..];
    assert Behind(rest) == if i + 1 <= |b| then b[i + 1..] else [];
    assert First(rest) == if i < |b| then b[i] else 0;
    assert done + ([d] + Subtracted(a[i + 1..], Behind(rest), if d > a[i] then 1 else 0))
        == done + [d] + Subtracted(a[i + 1..], Behind(rest), if d > a[i] then 1 else 0);
  }

  lemma LongerLimbs(s: Limbs, t: Limbs)
    requires Normalised(s) && Normalised(t) && Val(s) >= Val(t)
    ensures |s| >= |t|
  {
    CountIs(s);
    CountIs(t);
    MoreLimbs(Val(t), Val(s));
  }

  /** When the buffer has room for digits that are appended: there is no limit as long as all are zero. */
  predicate AppendFits(decimals: Text, begin: nat, end: nat)
    requires begin <= end <= |decimals| && AllDigits(decimals)
  {
    || Value(decimals[..begin]) == 0
    || (&& LimbsOf(Value(decimals[..begin]) * Power(5, end - begin)) < CAPACITY
        && LimbsOf(Value(decimals[..end])) <= CAPACITY)
  }

  /** The digits in the last turn fit. */
  predicate DecimalsFit(decimals: Text)
    requires decimals != [] && AllDigits(decimals)
  {
    AppendFits(decimals, (|decimals| - 1) / 19 * 19, |decimals|)
  }

  /** So do those in the turns before. */
  lemma EachAppendFits(decimals: Text, begin: nat, end: nat)
    requires decimals != [] && AllDigits(decimals) && DecimalsFit(decimals) && begin % 19 == 0
    requires begin < end <= |decimals| && (end == begin + 19 || (end == |decimals| && end < begin + 19))
    ensures AppendFits(decimals, begin, end)
  {
    BeforeLast(|decimals|, begin, end);
    var last := (|decimals| - 1) / 19 * 19;
    if begin != last { EarlierFits(decimals, begin, end, last); }
  }

  lemma EarlierFits(decimals: Text, begin: nat, end: nat, last: nat)
    requires begin <= end <= last < |decimals| && AllDigits(decimals) && AppendFits(decimals, last, |decimals|)
    ensures AppendFits(decimals, begin, end)
  {
    PrefixValue(decimals, begin, end);
    PrefixValue(decimals, end, last);
    if Value(decimals[..last]) != 0 {
      SmallerFits(Value(decimals[..begin]) * Power(5, end - begin), Value(decimals[..end]), Value(decimals[..last]),
                  Power(5, |decimals| - last), CAPACITY);
    }
  }

  lemma BeforeLast(n: nat, begin: nat, end: nat)
    requires begin % 19 == 0 && begin < end <= n && (end == begin + 19 || (end == n && end < begin + 19))
    ensures begin == (n - 1) / 19 * 19 || end == begin + 19 <= (n - 1) / 19 * 19 < n
  {
  }

  lemma SmallerFits(x: nat, y: nat, z: nat, factor: nat, n: nat)
    requires x <= y <= z && factor > 0 && LimbsOf(z * factor) < n
    ensures LimbsOf(x) < n && LimbsOf(y) < n
  {
    FactorFits(z, factor);
    MoreLimbs(y, z);
    MoreLimbs(x, y);
  }

  /** Appending digits makes the value at least as much greater as the power of five. */
  lemma PrefixValue(decimals: Text, begin: nat, end: nat)
    requires begin <= end <= |decimals| && AllDigits(decimals)
    ensures Value(decimals[..begin]) <= Value(decimals[..begin]) * Power(5, end - begin) <= Value(decimals[..end])
  {
    ValueAppend(decimals, begin, end);
    FiveBelowTen(end - begin);
    Products(Value(decimals[..begin]), Power(5, end - begin), Power(10, end - begin));
  }

  lemma Products(v: nat, five: nat, ten: nat)
    requires 0 < five <= ten
    ensures v <= v * five <= v * ten
  {
    AtLeast(v, five);
    Monotone(five, ten, v);
  }

  lemma {:induction false} FiveBelowTen(e: nat)
    ensures Power(5, e) <= Power(10, e)
  {
    if e > 0 { FiveBelowTen(e - 1); }
  }

  /** That many digits fit, whatever they are. */
  lemma ShortDecimalsFit(decimals: Text)
    requires decimals != [] && AllDigits(decimals) && |decimals| <= 19 * (CAPACITY - 1)
    ensures DecimalsFit(decimals)
  {
    var last, n := (|decimals| - 1) / 19 * 19, |decimals|;
    ValueBound(decimals, n);
    TenPower(CAPACITY - 1);
    MorePower(10, n, 19 * (CAPACITY - 1));
    assert decimals[..n] == decimals;
    LimbsBound(Value(decimals), CAPACITY - 1);
    PrefixValue(decimals, last, n);
    MoreLimbs(Value(decimals[..last]) * Power(5, n - last), Value(decimals));
  }

  lemma {:induction false} Power10Grows(e: nat)
    requires e <= 19
    ensures Power(10, e) <= 10000000000000000000
    decreases 19 - e
  {
    if e < 19 {
      Power10Grows(e + 1);
    } else {
      PowerAdd(10, 10, 9);
      PowerAdd(10, 5, 5);
      PowerAdd(10, 5, 4);
      assert Power(10, 4) == 10000 && Power(10, 5) == 100000;
    }
  }

  lemma {:induction false} ValueAppend(decimals: Text, begin: nat, end: nat)
    requires begin <= end <= |decimals| && AllDigits(decimals)
    ensures Value(decimals[..end]) == Value(decimals[..begin]) * Power(10, end - begin) + Value(decimals[begin..end])
    decreases end
  {
    if begin == end {
      assert decimals[begin..end] == [];
    } else {
      ValueAppend(decimals, begin, end - 1);
      assert decimals[..end][..end - 1] == decimals[..end - 1];
      ValueSnoc(decimals, begin, end - 1);
      Exchange(Value(decimals[..begin]), 10, Power(10, end - 1 - begin));
    }
  }

  lemma {:induction false} ValueBound(decimals: Text, n: nat)
    requires n <= |decimals| && AllDigits(decimals)
    ensures Value(decimals[..n]) < Power(10, n)
  {
    if n > 0 {
      ValueBound(decimals, n - 1);
      assert decimals[..n][..n - 1] == decimals[..n - 1];
    }
  }

  lemma {:induction false} Tens(v: nat, e: nat)
    ensures (v * Power(5, e)) * Power(2, e) == v * Power(10, e)
  {
    if e > 0 {
      Tens(v, e - 1);
      FiveTimesTwo(v, Power(5, e - 1), Power(2, e - 1), Power(10, e - 1));
    }
  }

  lemma FiveTimesTwo(v: nat, f: nat, t: nat, p: nat)
    requires (v * f) * t == v * p
    ensures (v * (5 * f)) * (2 * t) == v * (10 * p)
  {
    assert (v * (5 * f)) * (2 * t) == 10 * ((v * f) * t);
  }

  lemma {:induction false} TenPower(m: nat)
    ensures Power(10, 19 * m) <= Power(BASE, m)
  {
    if m > 0 {
      TenPower(m - 1);
      PowerAdd(10, 19, 19 * (m - 1));
      Power10Grows(19);
      assert 19 + 19 * (m - 1) == 19 * m;
      ProductBound(Power(10, 19), Power(10, 19 * (m - 1)), BASE, Power(BASE, m - 1));
    }
  }

  /** Limbs of the same number are the same. */
  lemma {:induction false} SameLimbs(s: Limbs, t: Limbs)
    requires |s| == |t| && Val(s) == Val(t)
    ensures s == t
  {
    if s != [] {
      assert (s[0] - t[0]) % BASE == 0 by { assert s[0] - t[0] == BASE * (Val(t[1..]) - Val(s[1..])); }
      SameLimbs(s[1..], t[1..]);
    }
  }

  lemma SameValue(s: Limbs, t: Limbs, top: Limb, factor: nat)
    requires |s| == |t| && factor > 0
    ensures factor * Val(s + [top]) == factor * Val(t + [top]) <==> s == t
  {
    if factor * Val(s + [top]) == factor * Val(t + [top]) {
      Cancelled(factor, Val(s + [top]), Val(t + [top]));
      SameLimbs(s + [top], t + [top]);
      assert (s + [top])[..|s|] == s && (t + [top])[..|t|] == t;
    }
  }

  /** The value with the top limb `offset` places higher, where the limbs below it are `s` instead of `t`. */
  lemma TopMoved(s: Limbs, t: Limbs, top: Limb, offset: nat, shifted: Limbs)
    requires |s| == |t| && Normalised(t + [top]) && Val(t + [top]) > 0
    requires |shifted| == offset + |s| + 1 && shifted[offset..] == s + [top]
    requires forall i :: 0 <= i < offset ==> shifted[i] == 0
    ensures Normalised(shifted)
    ensures Val(shifted) == Power(BASE, offset) * Val(t + [top]) <==> s == t
  {
    NotZero(t + [top]);
    BehindZeros(offset, s + [top], shifted);
    SameValue(s, t, top, Power(BASE, offset));
  }

  lemma Cancelled(factor: nat, a: nat, b: nat)
    requires factor > 0 && factor * a == factor * b
    ensures a == b
  {
    assert factor * (a - b) == 0;
  }

  /// ## How many limbs a number takes

  function LimbsOf(v: nat): nat {
    if v < BASE then 1 else 1 + LimbsOf(v / BASE)
  }

  lemma {:induction false} CountIs(s: Limbs)
    requires Normalised(s)
    ensures |s| == LimbsOf(Val(s))
  {
    if |s| == 1 {
      OneLimbVal(s);
    } else {
      NormalisedBound(s);
      MorePower(BASE, 1, |s| - 1);
      assert Power(BASE, 1) == BASE;
      CountIs(s[1..]);
      assert Val(s) / BASE == Val(s[1..]);
    }
  }

  lemma SumFitsLimbs(s: Limbs, u: nat, n: nat)
    requires Normalised(s) && u < BASE && LimbsOf(Val(s) + u) <= n
    ensures Normalised(Added(s, u)) && Val(Added(s, u)) == Val(s) + u
    ensures |Added(s, u)| <= n && |s| <= |Added(s, u)| <= |s| + 1
  {
    AddedVal(s, u);
    AddedNormalised(s, u);
    CountIs(Added(s, u));
  }

  lemma ProductFitsLimbs(s: Limbs, u: nat, n: nat)
    requires Normalised(s) && 0 < u < BASE && LimbsOf(Val(s) * u) <= n
    ensures Normalised(Multiplied(s, u, 0)) && Val(Multiplied(s, u, 0)) == Val(s) * u
    ensures |Multiplied(s, u, 0)| <= n && |Multiplied(s, u, 0)| <= |s| + 1
  {
    MultipliedVal(s, u, 0);
    MultipliedNormalised(s, u, 0);
    CountIs(Multiplied(s, u, 0));
  }

  lemma {:induction false} MoreLimbs(v: nat, w: nat)
    requires v <= w
    ensures LimbsOf(v) <= LimbsOf(w)
  {
    if v >= BASE { MoreLimbs(v / BASE, w / BASE); }
  }

  lemma FactorFits(v: nat, factor: nat)
    requires factor > 0
    ensures LimbsOf(v) <= LimbsOf(v * factor)
  {
    AtLeast(v, factor);
    MoreLimbs(v, v * factor);
  }

  lemma {:induction false} LimbsBound(v: nat, n: nat)
    requires n > 0 && v < Power(BASE, n)
    ensures LimbsOf(v) <= n
  {
    if v >= BASE {
      assert Power(BASE, 0) == 1;
      if n > 1 { LimbsBound(v / BASE, n - 1); }
    }
  }

  lemma PowerSplits(v: nat, e: nat, part: nat)
    requires part <= e
    ensures v * Power(5, e) == (v * Power(5, part)) * Power(5, e - part)
  {
    PowerAdd(5, part, e - part);
    Associate(v, Power(5, part), Power(5, e - part));
  }

  /** The constants that stand for the two large powers. */
  lemma Pow5Constants()
    ensures Power(5, 27) == 0x6765C793FA10079D && Power(5, 13) == 1220703125
  {
    assert Power(5, 1) == 5 && Power(5, 2) == 25 && Power(5, 4) == 625 by { PowerAdd(5, 2, 2); }
    assert Power(5, 8) == 390625 by { PowerAdd(5, 4, 4); }
    assert Power(5, 12) == 244140625 by { PowerAdd(5, 8, 4); }
    assert Power(5, 13) == 1220703125 by { PowerAdd(5, 12, 1); }
    assert Power(5, 14) == 6103515625 by { PowerAdd(5, 13, 1); }
    PowerAdd(5, 13, 14);
  }

  /** The table of the powers below the thirteenth. */
  lemma SmallPow5(e: nat)
    requires e < 13
    ensures Power(5, e) < HALF
  {
    Pow5Constants();
    PowerAdd(5, e, 13 - e);
    AtLeast(Power(5, e), Power(5, 13 - e));
  }

  lemma DroppedZero(w: Limbs, shifted: Limbs, product: Limbs)
    requires w != [] && w == product + (if w[|w| - 1] == 0 then [0] else [])
    requires shifted == if w[|w| - 1] == 0 then w[..|w| - 1] else w
    ensures shifted == product
  {
  }

  lemma NotZero(s: Limbs)
    ensures s == [0] ==> Val(s) == 0
  {
    if s == [0] { assert s[1..] == []; }
  }

  lemma OneLimbVal(s: Limbs)
    requires |s| == 1
    ensures Val(s) == s[0]
  {
    assert s[1..] == [];
  }
}
