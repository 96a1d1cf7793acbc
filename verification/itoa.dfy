/** Printing integers in decimal. */
module Itoa {
  import opened Characters
  import opened JsonText
  import opened JsonNumbers
  import opened Powers

  /** The two digits of every number below 100, side by side. */
  function DigitsLut(i: nat): (c: Byte)
    requires i < 200
    ensures IsDigit(c)
  {
    '0' as int + (if i % 2 == 0 then i / 2 / 10 else i / 2 % 10)
  }

  function Digit(d: nat): (c: Byte)
    requires d < 10
    ensures IsDigit(c)
  {
    '0' as int + d
  }

  /** The decimal digits of a number, without leading zeros. */
  function Decimal(v: nat): (digits: Text)
    ensures digits != [] && AllDigits(digits)
    ensures v > 0 ==> digits[0] != '0' as int
  {
    if v < 10 then [Digit(v)] else Decimal(v / 10) + [Digit(v % 10)]
  }

  /** Exactly `n` decimal digits. */
  function Padded(v: nat, n: nat): (digits: Text)
    ensures |digits| == n && AllDigits(digits)
  {
    if n == 0 then [] else Padded(v / 10, n - 1) + [Digit(v % 10)]
  }

  /** Digits behind a non-zero number extend its decimal. */
  lemma {:induction false} DecimalAppend(high: nat, low: nat, n: nat)
    requires high > 0 && low < Power10(n)
    ensures Decimal(high * Power10(n) + low) == Decimal(high) + Padded(low, n)
  {
    if n == 0 {
      assert Padded(low, 0) == [];
    } else {
      var v := high * Power10(n) + low;
      assert v == 10 * (high * Power10(n - 1) + low / 10) + low % 10;
      DecimalAppend(high, low / 10, n - 1);
      assert v / 10 == high * Power10(n - 1) + low / 10 && v % 10 == low % 10;
    }
  }

  lemma SmallPowers()
    ensures Power10(1) == 10 && Power10(2) == 100 && Power10(4) == 10000
    ensures Power10(8) == 100000000 && Power10(16) == 10000000000000000
  {
    assert Power10(3) == 1000 && Power10(5) == 100000 && Power10(6) == 1000000 && Power10(7) == 10000000;
    assert Power10(9) == 1000000000 && Power10(10) == 10000000000 && Power10(11) == 100000000000;
    assert Power10(12) == 1000000000000 && Power10(13) == 10000000000000 && Power10(14) == 100000000000000;
    assert Power10(15) == 1000000000000000;
  }

  lemma {:induction false} PaddedJoin(high: nat, low: nat, n: nat, m: nat)
    requires low < Power10(m)
    ensures Padded(high * Power10(m) + low, n + m) == Padded(high, n) + Padded(low, m)
    decreases m
  {
    if m == 0 {
      assert Padded(high, n) + [] == Padded(high, n);
    } else {
      var v := high * Power10(m) + low;
      assert v == 10 * (high * Power10(m - 1) + low / 10) + low % 10;
      PaddedJoin(high, low / 10, n, m - 1);
      assert v / 10 == high * Power10(m - 1) + low / 10 && v % 10 == low % 10;
    }
  }

  /** The powers of ten that the branches divide by. */
  predicate IsPower(unit: nat, n: nat) {
    || (n == 2 && unit == 100) || (n == 4 && unit == 10000)
    || (n == 8 && unit == 100000000) || (n == 16 && unit == 10000000000000000)
  }

  lemma UnitIs(unit: nat, n: nat)
    requires IsPower(unit, n)
    ensures unit == Power10(n)
  {
    SmallPowers();
  }

  lemma DecimalSplit(v: nat, high: nat, low: nat, unit: nat, n: nat)
    requires IsPower(unit, n) && high > 0 && low < unit && v == high * unit + low
    ensures Decimal(v) == Decimal(high) + Padded(low, n)
  {
    UnitIs(unit, n);
    DecimalAppend(high, low, n);
  }

  lemma PaddedSplit(v: nat, high: nat, low: nat, unit: nat, n: nat, m: nat)
    requires IsPower(unit, m) && low < unit && v == high * unit + low
    ensures Padded(v, n + m) == Padded(high, n) + Padded(low, m)
  {
    UnitIs(unit, m);
    PaddedJoin(high, low, n, m);
  }

  /** Two table entries are the two digits of a number below 100. */
  lemma {:induction false} LutPair(v: nat)
    requires v < 100
    ensures DigitsLut(2 * v) == Digit(v / 10) && DigitsLut(2 * v + 1) == Digit(v % 10)
    ensures Padded(v, 2) == [Digit(v / 10), Digit(v % 10)]
  {
    assert Padded(v, 2) == Padded(v / 10, 1) + [Digit(v % 10)];
    assert Padded(v / 10, 1) == Padded(v / 10 / 10, 0) + [Digit(v / 10 % 10)];
  }

  /** `*buffer++ = c`. */
  method Put(buffer: array<Byte>, at: nat, c: Byte) returns (next: nat)
    requires at < buffer.Length
    modifies buffer
    ensures next == at + 1 && buffer[..next] == old(buffer[..at]) + [c]
  {
    buffer[at] := c;
    next := at + 1;
  }

  /** Both digits of a number below 100. */
  method PutPair(buffer: array<Byte>, at: nat, v: nat) returns (next: nat)
    requires v < 100 && at + 2 <= buffer.Length
    modifies buffer
    ensures next == at + 2 && buffer[..next] == old(buffer[..at]) + Padded(v, 2)
  {
    var d := 2 * v;
    next := Put(buffer, at, DigitsLut(d));
    next := Put(buffer, next, DigitsLut(d + 1));
    LutPair(v);
  }

  /** All four digits of a number below 10000. */
  method PutQuad(buffer: array<Byte>, at: nat, v: nat) returns (next: nat)
    requires v < 10000 && at + 4 <= buffer.Length
    modifies buffer
    ensures next == at + 4 && buffer[..next] == old(buffer[..at]) + Padded(v, 4)
  {
    next := PutPair(buffer, at, v / 100);
    next := PutPair(buffer, next, v % 100);
    PaddedSplit(v, v / 100, v % 100, 100, 2, 2);
    Regrouped(old(buffer[..at]), Padded(v / 100, 2), Padded(v % 100, 2));
  }

  lemma DecimalPair(v: nat)
    requires v < 100
    ensures Decimal(v) == if v >= 10 then [DigitsLut(2 * v), DigitsLut(2 * v + 1)] else [DigitsLut(2 * v + 1)]
  {
    LutPair(v);
  }

  lemma DecimalQuad(v: nat)
    requires 100 <= v < 10000
    ensures Decimal(v) == Decimal(v / 100) + Padded(v % 100, 2)
  {
    DecimalSplit(v, v / 100, v % 100, 100, 2);
  }

  /** The digits that the four comparisons let through. */
  function Leading(v: nat): Text
    requires v < 10000
  {
    (if v >= 1000 then [DigitsLut(2 * (v / 100))] else [])
    + (if v >= 100 then [DigitsLut(2 * (v / 100) + 1)] else [])
    + (if v >= 10 then [DigitsLut(2 * (v % 100))] else [])
    + [DigitsLut(2 * (v % 100) + 1)]
  }

  lemma LeadingPairs(v: nat)
    requires 100 <= v < 10000
    ensures Leading(v) == Decimal(v / 100) + Padded(v % 100, 2)
  {
    LutPair(v % 100);
    DecimalPair(v / 100);
  }

  lemma LeadingShort(v: nat)
    requires v < 100
    ensures Leading(v) == Decimal(v)
  {
    DecimalPair(v);
  }

  lemma LeadingIsDecimal(v: nat)
    requires v < 10000
    ensures Leading(v) == Decimal(v)
  {
    if v < 100 {
      LeadingShort(v);
    } else {
      DecimalQuad(v);
      LeadingPairs(v);
    }
  }

  lemma Thresholds(v: nat, value: nat, unit: nat)
    requires (unit == 1 || unit == 10000) && v == value / unit
    ensures value >= 1000 * unit <==> v >= 1000
    ensures value >= 100 * unit <==> v >= 100
    ensures value >= 10 * unit <==> v >= 10
  {
  }

  /** The digits of a number below 10000, without leading zeros. `value` is the number of which `v` are
      the leading digits; the comparisons are made on `value`. */
  method PutLeading(buffer: array<Byte>, at: nat, v: nat, value: nat, unit: nat) returns (next: nat)
    requires v < 10000 && at + 4 <= buffer.Length
    requires (unit == 1 || unit == 10000) && v == value / unit
    modifies buffer
    ensures next <= at + 4 && buffer[..next] == old(buffer[..at]) + Decimal(v)
  {
    var d1, d2 := 2 * (v / 100), 2 * (v % 100);
    Thresholds(v, value, unit);
    LeadingIsDecimal(v);
    next := at;
    if value >= 1000 * unit { next := Put(buffer, next, DigitsLut(d1)); }
    if value >= 100 * unit { next := Put(buffer, next, DigitsLut(d1 + 1)); }
    if value >= 10 * unit { next := Put(buffer, next, DigitsLut(d2)); }
    next := Put(buffer, next, DigitsLut(d2 + 1));
  }

  /** All eight digits of a number below 100000000. */
  method PutEight(buffer: array<Byte>, at: nat, v: nat) returns (next: nat)
    requires v < 100000000 && at + 8 <= buffer.Length
    modifies buffer
    ensures next == at + 8 && buffer[..next] == old(buffer[..at]) + Padded(v, 8)
  {
    next := PutQuad(buffer, at, v / 10000);
    next := PutQuad(buffer, next, v % 10000);
    PaddedSplit(v, v / 10000, v % 10000, 10000, 4, 4);
    Regrouped(old(buffer[..at]), Padded(v / 10000, 4), Padded(v % 10000, 4));
  }

  /** The branches for numbers below 100000000, which are the same in 32 and 64 bits. */
  method PutSmall(buffer: array<Byte>, at: nat, value: nat) returns (next: nat)
    requires value < 100000000 && at + 8 <= buffer.Length
    modifies buffer
    ensures next <= at + 8 && buffer[..next] == old(buffer[..at]) + Decimal(value)
  {
    if value < 10000 {
      next := PutLeading(buffer, at, value, value, 1);
    } else {
      var b, c := value / 10000, value % 10000;
      next := PutLeading(buffer, at, b, value, 10000);
      next := PutQuad(buffer, next, c);
      QuadMore(value, b, c);
      assert old(buffer[..at]) + Decimal(value) == old(buffer[..at]) + Decimal(b) + Padded(c, 4);
    }
  }

  lemma QuadMore(value: nat, high: nat, low: nat)
    requires value >= 10000 && high == value / 10000 && low == value % 10000
    ensures Decimal(value) == Decimal(high) + Padded(low, 4)
  {
    DecimalSplit(value, high, low, 10000, 4);
  }

  lemma EightMore(value: nat, high: nat, low: nat)
    requires value >= 100000000 && high == value / 100000000 && low == value % 100000000
    ensures Decimal(value) == Decimal(high) + Padded(low, 8)
  {
    DecimalSplit(value, high, low, 100000000, 8);
  }

  method U32ToA(value: nat, buffer: array<Byte>, at: nat) returns (next: nat)
    requires value <= MAX_UINT && at + 10 <= buffer.Length
    modifies buffer
    ensures next <= at + 10 && buffer[..next] == old(buffer[..at]) + Decimal(value)
  {
    if value < 100000000 {
      next := PutSmall(buffer, at, value);
    } else {
      var a, low := value / 100000000, value % 100000000;
      next := PutUpToTwo(buffer, at, a);
      next := PutEight(buffer, next, low);
      EightMore(value, a, low);
      assert old(buffer[..at]) + Decimal(value) == old(buffer[..at]) + Decimal(a) + Padded(low, 8);
    }
  }

  /** The leading one or two digits. */
  method PutUpToTwo(buffer: array<Byte>, at: nat, a: nat) returns (next: nat)
    requires a < 100 && at + 2 <= buffer.Length
    modifies buffer
    ensures next <= at + 2 && buffer[..next] == old(buffer[..at]) + Decimal(a)
  {
    DecimalPair(a);
    LutPair(a);
    if a >= 10 {
      next := PutPair(buffer, at, a);
    } else {
      next := Put(buffer, at, Digit(a));
    }
  }

  const TEN8: nat := 100000000
  const TEN16: nat := TEN8 * TEN8

  lemma Thresholds64(v: nat, value: nat)
    requires v == value / TEN8
    ensures value >= TEN8 * 10000000 <==> v >= 10000000
    ensures value >= TEN8 * 1000000 <==> v >= 1000000
    ensures value >= TEN8 * 100000 <==> v >= 100000
    ensures value >= TEN8 * 10000 <==> v >= 10000
    ensures value >= TEN8 * 1000 <==> v >= 1000
    ensures value >= TEN8 * 100 <==> v >= 100
    ensures value >= TEN8 * 10 <==> v >= 10
  {
  }

  /** The upper four digits of the leading eight; nothing for zero. */
  method PutLeadingHigh(buffer: array<Byte>, at: nat, v: nat, value: nat) returns (next: nat)
    requires v < TEN8 && v == value / TEN8 && at + 4 <= buffer.Length
    modifies buffer
    ensures next <= at + 4
    ensures buffer[..next] == old(buffer[..at]) + if v >= 10000 then Decimal(v / 10000) else []
  {
    var b := v / 10000;
    var d1, d2 := 2 * (b / 100), 2 * (b % 100);
    Thresholds64(v, value);
    LeadingIsDecimal(b);
    next := at;
    if value >= TEN8 * 10000000 { next := Put(buffer, next, DigitsLut(d1)); }
    if value >= TEN8 * 1000000 { next := Put(buffer, next, DigitsLut(d1 + 1)); }
    if value >= TEN8 * 100000 { next := Put(buffer, next, DigitsLut(d2)); }
    if value >= TEN8 * 10000 { next := Put(buffer, next, DigitsLut(d2 + 1)); }
  }

  lemma PaddedQuad(c: nat)
    requires c < 10000
    ensures Padded(c, 4) == [DigitsLut(2 * (c / 100)), DigitsLut(2 * (c / 100) + 1),
                             DigitsLut(2 * (c % 100)), DigitsLut(2 * (c % 100) + 1)]
  {
    PaddedSplit(c, c / 100, c % 100, 100, 2, 2);
    LutPair(c / 100);
    LutPair(c % 100);
  }

  /** The digits that the last four comparisons let through. */
  function LeadingLow(v: nat): Text {
    var c := v % 10000;
    (if v >= 1000 then [DigitsLut(2 * (c / 100))] else [])
    + (if v >= 100 then [DigitsLut(2 * (c / 100) + 1)] else [])
    + (if v >= 10 then [DigitsLut(2 * (c % 100))] else [])
    + [DigitsLut(2 * (c % 100) + 1)]
  }

  lemma LeadingLowIs(v: nat)
    ensures LeadingLow(v) == if v >= 10000 then Padded(v % 10000, 4) else Decimal(v)
  {
    if v >= 10000 {
      PaddedQuad(v % 10000);
    } else {
      LeadingLowShort(v);
      LeadingIsDecimal(v);
    }
  }

  lemma LeadingLowShort(v: nat)
    requires v < 10000
    ensures LeadingLow(v) == Leading(v)
  {
    assert v % 10000 == v;
  }

  /** The lower four digits of the leading eight: all of them behind other digits. */
  method PutLeadingLow(buffer: array<Byte>, at: nat, v: nat, value: nat) returns (next: nat)
    requires 0 < v < TEN8 && v == value / TEN8 && at + 4 <= buffer.Length
    modifies buffer
    ensures next <= at + 4
    ensures buffer[..next] == old(buffer[..at]) + if v >= 10000 then Padded(v % 10000, 4) else Decimal(v)
  {
    var c := v % 10000;
    var d3, d4 := 2 * (c / 100), 2 * (c % 100);
    Thresholds64(v, value);
    LeadingLowIs(v);
    next := at;
    if value >= TEN8 * 1000 { next := Put(buffer, next, DigitsLut(d3)); }
    if value >= TEN8 * 100 { next := Put(buffer, next, DigitsLut(d3 + 1)); }
    if value >= TEN8 * 10 { next := Put(buffer, next, DigitsLut(d4)); }
    if value >= TEN8 { next := Put(buffer, next, DigitsLut(d4 + 1)); }
  }

  /** The leading digits of a number of seventeen digits or more. */
  method PutUpToFour(buffer: array<Byte>, at: nat, a: nat) returns (next: nat)
    requires a < 10000 && at + 4 <= buffer.Length
    modifies buffer
    ensures next <= at + 4 && buffer[..next] == old(buffer[..at]) + Decimal(a)
  {
    if a < 100 {
      next := PutUpToTwo(buffer, at, a);
    } else {
      DecimalQuad(a);
      DecimalPair(a / 100);
      if a < 1000 {
        next := Put(buffer, at, Digit(a / 100));
      } else {
        next := PutPair(buffer, at, a / 100);
        LutPair(a / 100);
      }
      next := PutPair(buffer, next, a % 100);
    }
  }

  lemma SixteenMore(value: nat, high: nat, low: nat)
    requires value >= TEN16 && high == value / TEN16 && low == value % TEN16
    ensures Decimal(value) == Decimal(high) + Padded(low, 16)
  {
    DecimalSplit(value, high, low, TEN16, 16);
  }

  /** The sixteen digits behind the leading ones. */
  method PutSixteen(buffer: array<Byte>, at: nat, low: nat) returns (next: nat)
    requires low < TEN16 && at + 16 <= buffer.Length
    modifies buffer
    ensures next == at + 16 && buffer[..next] == old(buffer[..at]) + Padded(low, 16)
  {
    next := PutEight(buffer, at, low / TEN8);
    next := PutEight(buffer, next, low % TEN8);
    TwoEights(low);
    Regrouped(old(buffer[..at]), Padded(low / TEN8, 8), Padded(low % TEN8, 8));
  }

  lemma TwoEights(low: nat)
    ensures Padded(low, 16) == Padded(low / TEN8, 8) + Padded(low % TEN8, 8)
  {
    PaddedSplit(low, low / TEN8, low % TEN8, TEN8, 8, 8);
  }

  method U64ToA(value: nat, buffer: array<Byte>, at: nat) returns (next: nat)
    requires value <= MAX_UINT64 && at + 20 <= buffer.Length
    modifies buffer
    ensures next <= at + 20 && buffer[..next] == old(buffer[..at]) + Decimal(value)
  {
    if value < TEN8 {
      next := PutSmall(buffer, at, value);
    } else if value < TEN16 {
      next := PutMiddle(buffer, at, value);
    } else {
      next := PutUpToFour(buffer, at, value / TEN16);
      next := PutSixteen(buffer, next, value % TEN16);
      SixteenMore(value, value / TEN16, value % TEN16);
      Regrouped(old(buffer[..at]), Decimal(value / TEN16), Padded(value % TEN16, 16));
    }
  }

  method PutLeadingEight(buffer: array<Byte>, at: nat, v: nat, value: nat) returns (next: nat)
    requires 0 < v < TEN8 && v == value / TEN8 && at + 8 <= buffer.Length
    modifies buffer
    ensures next <= at + 8 && buffer[..next] == old(buffer[..at]) + Decimal(v)
  {
    next := PutLeadingHigh(buffer, at, v, value);
    next := PutLeadingLow(buffer, next, v, value);
    if v >= 10000 {
      QuadMore(v, v / 10000, v % 10000);
      Regrouped(old(buffer[..at]), Decimal(v / 10000), Padded(v % 10000, 4));
    }
  }

  method PutMiddle(buffer: array<Byte>, at: nat, value: nat) returns (next: nat)
    requires TEN8 <= value < TEN16 && at + 16 <= buffer.Length
    modifies buffer
    ensures next <= at + 16 && buffer[..next] == old(buffer[..at]) + Decimal(value)
  {
    var v0, v1 := value / TEN8, value % TEN8;
    next := PutLeadingEight(buffer, at, v0, value);
    next := PutEight(buffer, next, v1);
    EightMore(value, v0, v1);
    Regrouped(old(buffer[..at]), Decimal(v0), Padded(v1, 8));
  }

  /// ## Signed numbers

  /** `u = static_cast<uint32_t>(value)`, negated when the value is negative. */
  function Magnitude(value: int, modulus: int): (u: nat)
    requires -modulus <= 2 * value < modulus
    ensures u == if value < 0 then -value else value
  {
    var u := if value < 0 then value + modulus else value;
    if value < 0 then modulus - u else u
  }

  /** A sign when needed, and the decimal of the magnitude. */
  function SignedDecimal(value: int): (digits: Text) {
    if value < 0 then ['-' as int] + Decimal(-value) else Decimal(value)
  }

  method I32ToA(value: int, buffer: array<Byte>, at: nat) returns (next: nat)
    requires -0x8000_0000 <= value < 0x8000_0000 && at + 11 <= buffer.Length
    modifies buffer
    ensures next <= at + 11 && buffer[..next] == old(buffer[..at]) + SignedDecimal(value)
  {
    next := at;
    var u := Magnitude(value, 0x1_0000_0000);
    if value < 0 { next := Put(buffer, next, '-' as int); }
    next := U32ToA(u, buffer, next);
  }

  method I64ToA(value: int, buffer: array<Byte>, at: nat) returns (next: nat)
    requires -0x8000_0000_0000_0000 <= value < 0x8000_0000_0000_0000 && at + 21 <= buffer.Length
    modifies buffer
    ensures next <= at + 21 && buffer[..next] == old(buffer[..at]) + SignedDecimal(value)
  {
    next := at;
    var u := Magnitude(value, 0x1_0000_0000_0000_0000);
    if value < 0 { next := Put(buffer, next, '-' as int); }
    next := U64ToA(u, buffer, next);
  }

  /// ## Printing and reading

  lemma {:induction false} DecimalValue(v: nat)
    ensures Value(Decimal(v)) == v
  {
    if v >= 10 {
      DecimalValue(v / 10);
      assert Decimal(v)[..|Decimal(v)| - 1] == Decimal(v / 10);
    }
  }

  lemma {:induction false} DigitsEndIs(text: Text, p: nat, end: nat)
    requires p <= end <= |text| && !DigitAt(text, end)
    requires forall i :: p <= i < end ==> IsDigit(text[i])
    ensures DigitsEnd(text, p) == end
    decreases end - p
  {
    if p < end {
      DigitsEndIs(text, p + 1, end);
    }
  }

  /** What may follow a number: nothing that would be read as part of it. */
  predicate EndsNumber(rest: Text) {
    !DigitAt(rest, 0) && Peek(rest) != '.' as int && Peek(rest) != 'e' as int && Peek(rest) != 'E' as int
  }

  /** A printed integer is read back as the printed integer, with the event that its size calls for. */
  lemma ReadsPrinted(value: int, rest: Text)
    requires -0x8000_0000_0000_0000 <= value <= MAX_UINT64 && EndsNumber(rest)
    ensures ReadNumber(SignedDecimal(value) + rest)
            == Lexed(if value < -0x8000_0000 then Int64(value)
                     else if value < 0 then Int(value)
                     else if value <= MAX_UINT then Uint(value)
                     else Uint64(value), rest)
  {
    var v: nat := if value < 0 then -value else value;
    var from := if value < 0 then 1 else 0;
    var text := SignedDecimal(value) + rest;
    var end := from + |Decimal(v)|;
    assert text[from..end] == Decimal(v) && text[end..] == rest;
    DecimalValue(v);
    PrintedEnd(text, from, v, rest);
    FewDigits(text, from, end);
  }

  lemma PrintedEnd(text: Text, from: nat, v: nat, rest: Text)
    requires from + |Decimal(v)| <= |text| && text[from..from + |Decimal(v)|] == Decimal(v)
    requires text[from + |Decimal(v)|..] == rest && EndsNumber(rest)
    ensures IntegerEnd(text, from) == from + |Decimal(v)|
    ensures FractionEnd(text, from + |Decimal(v)|) == Lexed(from + |Decimal(v)|, [])
    ensures var end := from + |Decimal(v)|;
            end == |text| || (text[end] != 'e' as int && text[end] != 'E' as int)
  {
    var end := from + |Decimal(v)|;
    assert end < |text| ==> text[end] == rest[0];
    forall i | from <= i < end ensures IsDigit(text[i]) {
      assert text[i] == text[from..end][i - from];
    }
    DigitsEndIs(text, from, end);
    assert text[from] == Decimal(v)[0];
  }
}
