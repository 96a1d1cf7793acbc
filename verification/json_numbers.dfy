/** Reading numbers: which event a decimal literal becomes. */
module JsonNumbers {
  import opened Characters
  import opened JsonText
  import opened Powers
  import opened Wrappers

  /** The number events. The value of a double is left as the literal it is read from. */
  datatype Number = Int(value: int) | Uint(value: int) | Int64(value: int) | Uint64(value: int) | Double(literal: Text)

  const MAX_INT_MAGNITUDE: nat := 0x8000_0000
  const MAX_UINT: nat := 0xFFFF_FFFF
  const MAX_INT64_MAGNITUDE: nat := 0x8000_0000_0000_0000
  const MAX_UINT64: nat := 0xFFFF_FFFF_FFFF_FFFF

  predicate DigitAt(text: Text, p: nat) {
    p < |text| && IsDigit(text[p])
  }

  predicate AllDigits(digits: Text) {
    forall i :: 0 <= i < |digits| ==> IsDigit(digits[i])
  }

  /** The decimal value. */
  function Value(digits: Text): (v: nat)
    requires AllDigits(digits)
  {
    if digits == [] then 0
    else 10 * Value(digits[..|digits| - 1]) + (digits[|digits| - 1] - '0' as int)
  }

  /** Where the digits from position `p` on end. */
  function DigitsEnd(text: Text, p: nat): (end: nat)
    requires p <= |text|
    ensures p <= end <= |text| && !DigitAt(text, end)
    ensures forall i :: p <= i < end ==> IsDigit(text[i])
    decreases |text| - p
  {
    if DigitAt(text, p) then DigitsEnd(text, p + 1) else p
  }

  /// ## What is to be read

  /** The narrowest event for a value: unsigned without a sign, signed behind one. */
  function Classified(minus: bool, v: nat, literal: Text): Number {
    if minus then
      if v <= MAX_INT_MAGNITUDE then Int(0 - v as int)
      else if v <= MAX_INT64_MAGNITUDE then Int64(0 - v as int)
      else Double(literal)
    else
      if v <= MAX_UINT then Uint(v)
      else if v <= MAX_UINT64 then Uint64(v)
      else Double(literal)
  }

  /** Where the integer part ends: one zero, or digits that start with another one. */
  function IntegerEnd(text: Text, p: nat): (end: nat)
    requires p <= |text|
    ensures p <= end <= |text| && AllDigits(text[p..end])
  {
    if p < |text| && text[p] == '0' as int then p + 1 else DigitsEnd(text, p)
  }

  /** Where a fraction that may be at `p` ends. */
  function FractionEnd(text: Text, p: nat): (end: Lexed<nat>)
    requires p <= |text|
    ensures end.Lexed? ==> p <= end.value <= |text|
  {
    if p == |text| || text[p] != '.' as int then Lexed(p, [])
    else if !DigitAt(text, p + 1) then Failed(NumberMissFraction)
    else Lexed(DigitsEnd(text, p + 1), [])
  }

  /** Where the digits of the exponent at `p` begin: behind a sign, if there is one. */
  function ExponentStart(text: Text, p: nat): nat {
    if p + 1 < |text| && (text[p + 1] == '+' as int || text[p + 1] == '-' as int) then p + 2 else p + 1
  }

  /** Where an exponent that may be at `p` ends; a positive one is at most `maxExp`. */
  function ExponentEnd(text: Text, p: nat, maxExp: nat): (end: Lexed<nat>)
    requires p <= |text|
    ensures end.Lexed? ==> p <= end.value <= |text|
  {
    if p == |text| || (text[p] != 'e' as int && text[p] != 'E' as int) then Lexed(p, [])
    else
      var q := ExponentStart(text, p);
      if !DigitAt(text, q) then Failed(NumberMissExponent)
      else if text[p + 1] != '-' as int && Value(text[q..DigitsEnd(text, q)]) > maxExp then Failed(NumberTooBig)
      else Lexed(DigitsEnd(text, q), [])
  }

  const TEN97: nat := 10000000000000000000000000000000000000000000000000000000000000000000000000000000000000000000000000

  /** 1.7976931348623157e307, about a tenth of the greatest double. */
  const DOUBLE_LIMIT: nat := 17976931348623157 * (TEN97 * (TEN97 * TEN97))

  lemma LimitIsGreat()
    ensures DOUBLE_LIMIT > 10 * MAX_UINT64
  {
    AtLeast(17976931348623157 * TEN97, TEN97 * TEN97);
    Associate(17976931348623157, TEN97, TEN97 * TEN97);
  }

  /** The digits but the last have reached the limit. */
  predicate TooManyDigits(text: Text, from: nat, p: nat)
    requires from < p <= |text| && AllDigits(text[from..p])
  {
    AllDigits(text[from..p - 1]) && Value(text[from..p - 1]) >= DOUBLE_LIMIT
  }

  const MAX_SIGNIFICAND: nat := 0x1F_FFFF_FFFF_FFFF

  /** How many digits of a fraction count for the significand: those up to 53 bits, and then up to
      seventeen significant ones; `i` is the significand and `significant` the count so far. */
  function CountedDigits(i: nat, significant: nat, digits: Text): (n: nat)
    requires AllDigits(digits)
    ensures n <= |digits|
    decreases |digits|
  {
    if digits == [] then 0
    else
      var j := i * 10 + (digits[0] - '0' as int);
      if i <= MAX_SIGNIFICAND then 1 + CountedDigits(j, if j != 0 then significant + 1 else significant, digits[1..])
      else if significant < 17 then 1 + CountedDigits(j, significant + 1, digits[1..])
      else 0
  }

  /** The digits behind a decimal point at `p`, if there is one. */
  function FractionDigits(text: Text, p: nat, end: nat): Text
    requires p <= end <= |text|
  {
    if p == end then [] else text[p + 1..end]
  }

  /** The greatest exponent: as many digits as count more than that of the greatest double. */
  function MaxExponent(text: Text, from: nat, p: nat, end: nat): nat
    requires from < p <= end <= |text| && AllDigits(text[from..p]) && AllDigits(FractionDigits(text, p, end))
  {
    308 + CountedDigits(Value(text[from..p]), p - from - 1, FractionDigits(text, p, end))
  }

  lemma FractionIsDigits(text: Text, p: nat)
    requires p <= |text| && FractionEnd(text, p).Lexed?
    ensures AllDigits(FractionDigits(text, p, FractionEnd(text, p).value))
  {
  }

  /** A JSON number at the start of a text. */
  function ReadNumber(text: Text): (number: Lexed<Number>)
    ensures number.Lexed? ==> |number.rest| < |text|
  {
    var minus := text != [] && text[0] == '-' as int;
    var from := if minus then 1 else 0;
    var p := IntegerEnd(text, from);
    if p == from then Failed(ValueInvalid)
    else if TooManyDigits(text, from, p) then Failed(NumberTooBig)
    else
      var fraction := FractionEnd(text, p);
      if fraction.Failed? then Failed(fraction.code)
      else
        FractionIsDigits(text, p);
        var exponent := ExponentEnd(text, fraction.value, MaxExponent(text, from, p, fraction.value));
        if exponent.Failed? then Failed(exponent.code)
        else
          var end := exponent.value;
          Lexed(if end > p then Double(text[..end]) else Classified(minus, Value(text[from..p]), text[..end]),
                text[end..])
  }

  /// ## Which numbers are too big

  /** The significand of a number with all its digits. */
  function Significant(integer: Text, fraction: Text): nat
    requires AllDigits(integer) && AllDigits(fraction)
  {
    Value(integer) * Power10(|fraction|) + Value(fraction)
  }

  lemma {:induction false} ValueCons(digits: Text)
    requires digits != [] && AllDigits(digits)
    ensures Value(digits) == (digits[0] - '0' as int) * Power10(|digits| - 1) + Value(digits[1..])
  {
    var n := |digits| - 1;
    if n == 0 {
      assert digits[..0] == [] && digits[1..] == [];
    } else {
      ValueCons(digits[..n]);
      assert digits[..n][1..] == digits[1..][..n - 1];
      TenfoldSum(digits[0] - '0' as int, Power10(n - 1), Value(digits[1..][..n - 1]));
    }
  }

  lemma TenfoldSum(d: nat, p: nat, v: nat)
    ensures 10 * (d * p + v) == d * (10 * p) + 10 * v
  {
  }

  lemma LargeEnough(i: nat, k: nat, n: nat, v: nat)
    requires i > 0
    ensures i * Power10(k) + v >= Power10(if n <= k then k - n else 0)
  {
    MorePower(10, if n <= k then k - n else 0, k);
    AtLeast(Power10(k), i);
  }

  /** The digits that count include one that is not zero, if there is any. */
  lemma {:induction false} CountedIsNonZero(i: nat, significant: nat, digits: Text)
    requires AllDigits(digits) && (i > 0 || Value(digits) > 0)
    ensures i * Power10(|digits|) + Value(digits) >= Power10(|digits| - CountedDigits(i, significant, digits))
    decreases |digits|
  {
    if i > 0 {
      LargeEnough(i, |digits|, CountedDigits(i, significant, digits), Value(digits));
    } else {
      ValueCons(digits);
      var d := digits[0] - '0' as int;
      var more := if d != 0 then significant + 1 else significant;
      CountedIsNonZero(d, more, digits[1..]);
      assert CountedDigits(0, significant, digits) == 1 + CountedDigits(d, more, digits[1..]);
    }
  }

  /** A number is rejected for its exponent only if it is zero or at least 10^309. */
  lemma ExponentTooBig(integer: Text, fraction: Text, significant: nat, e: nat)
    requires AllDigits(integer) && AllDigits(fraction)
    requires e > 308 + CountedDigits(Value(integer), significant, fraction)
    ensures Significant(integer, fraction) == 0
            || Significant(integer, fraction) * Power10(e) >= Power10(309 + |fraction|)
  {
    var m, n := Significant(integer, fraction), CountedDigits(Value(integer), significant, fraction);
    if m > 0 {
      CountedIsNonZero(Value(integer), significant, fraction);
      Monotone(Power10(|fraction| - n), m, Power10(e));
      PowerAdd(10, |fraction| - n, e);
      MorePower(10, 309 + |fraction|, |fraction| - n + e);
    }
  }

  /** A number that is rejected as too big is zero with an exponent above 308, or at least 10^309, or has
      digits before its point for at least 1.7976931348623157e308. */
  lemma TooBigIsZeroOrHuge(text: Text)
    requires ReadNumber(text) == Failed(NumberTooBig)
    ensures var from := if text != [] && text[0] == '-' as int then 1 else 0;
            var p := IntegerEnd(text, from);
            && from < p
            && (|| Value(text[from..p]) >= 10 * DOUBLE_LIMIT
                || (&& FractionEnd(text, p).Lexed?
                    && var q := FractionEnd(text, p).value;
                       var e := ExponentStart(text, q);
                       && AllDigits(FractionDigits(text, p, q)) && e <= |text|
                       && var m := Significant(text[from..p], FractionDigits(text, p, q));
                          var exp := Value(text[e..DigitsEnd(text, e)]);
                          exp > 308
                          && (m == 0 || m * Power10(exp) >= Power10(309 + |FractionDigits(text, p, q)|))))
  {
    var from := if text != [] && text[0] == '-' as int then 1 else 0;
    var p := IntegerEnd(text, from);
    if TooManyDigits(text, from, p) {
      ValueSnoc(text, from, p - 1);
    } else {
      var q := FractionEnd(text, p).value;
      FractionIsDigits(text, p);
      var e := ExponentStart(text, q);
      ExponentTooBig(text[from..p], FractionDigits(text, p, q), p - from - 1, Value(text[e..DigitsEnd(text, e)]));
    }
  }

  /** Zero is among them. */
  lemma ZeroTooBig()
    ensures ReadNumber(['0' as int, 'e' as int, '3' as int, '0' as int, '9' as int]) == Failed(NumberTooBig)
  {
    var text: Text := ['0' as int, 'e' as int, '3' as int, '0' as int, '9' as int];
    LimitIsGreat();
    assert text[0..0] == [] && text[0..1] == ['0' as int];
    assert DigitsEnd(text, 5) == 5 && DigitsEnd(text, 4) == 5 && DigitsEnd(text, 3) == 5 && DigitsEnd(text, 2) == 5;
    ValueSnoc(text, 2, 4);
    ValueSnoc(text, 2, 3);
    ValueSnoc(text, 2, 2);
    assert text[2..2] == [] && Value(text[2..5]) == 309;
  }

  /// ## How it is read

  lemma ValueSnoc(text: Text, from: nat, p: nat)
    requires from <= p < |text| && AllDigits(text[from..p + 1])
    ensures AllDigits(text[from..p])
    ensures Value(text[from..p + 1]) == 10 * Value(text[from..p]) + (text[p] - '0' as int)
  {
    assert text[from..p + 1][..p - from] == text[from..p];
  }

  lemma {:induction false} ValueGrows(text: Text, from: nat, p: nat, q: nat)
    requires from <= p <= q <= |text| && AllDigits(text[from..q])
    ensures AllDigits(text[from..p])
    ensures Value(text[from..p]) <= Value(text[from..q])
    decreases q
  {
    if p < q {
      ValueSnoc(text, from, q - 1);
      ValueGrows(text, from, p, q - 1);
    }
  }

  lemma AnotherDigit(text: Text, from: nat, p: nat)
    requires from <= p <= |text| && AllDigits(text[from..p]) && DigitAt(text, p)
    ensures AllDigits(text[from..p + 1])
    ensures Value(text[from..p + 1]) == 10 * Value(text[from..p]) + (text[p] - '0' as int)
  {
    assert text[from..p + 1] == text[from..p] + [text[p]];
    ValueSnoc(text, from, p);
  }

  /** One of the digit loops: appends digits to the accumulator as long as it stays within
      `10 * limit + last`, which the two guards decide without computing a larger number. */
  method ParseDigits(text: Text, from: nat, start: nat, acc: nat, limit: nat, last: nat)
    returns (p: nat, value: nat, exceeded: bool)
    requires from <= start <= |text| && AllDigits(text[from..start])
    requires acc == Value(text[from..start]) <= 10 * limit + last && last <= 9
    ensures start <= p <= |text| && AllDigits(text[from..p])
    ensures value == Value(text[from..p]) <= 10 * limit + last
    ensures DigitsEnd(text, p) == DigitsEnd(text, start)
    ensures if exceeded then
              p < |text| && AllDigits(text[from..p + 1]) && Value(text[from..p + 1]) > 10 * limit + last
            else p == DigitsEnd(text, start)
  {
    p, value, exceeded := start, acc, false;
    while DigitAt(text, p)
      invariant start <= p <= |text| && AllDigits(text[from..p])
      invariant value == Value(text[from..p]) <= 10 * limit + last
      invariant DigitsEnd(text, p) == DigitsEnd(text, start)
      decreases |text| - p
    {
      AnotherDigit(text, from, p);
      if value >= limit {
        if value != limit || text[p] > '0' as int + last {
          exceeded := true;
          return;
        }
      }
      value := value * 10 + (text[p] - '0' as int);
      p := p + 1;
    }
  }

  /** `static_cast<int32_t>(~i + 1)`, and the same in 64 bits: negation in two's complement. */
  function Negated(i: nat, modulus: nat): int
    requires i <= modulus
  {
    var u := if i == 0 then 0 else modulus - i;
    if u >= modulus / 2 then u - modulus else u
  }

  lemma ReachedEarly(text: Text, from: nat, p: nat, end: nat)
    requires from <= p < end <= |text| && AllDigits(text[from..end]) && AllDigits(text[from..p])
    requires Value(text[from..p]) >= DOUBLE_LIMIT
    ensures TooManyDigits(text, from, end)
  {
    ValueGrows(text, from, end - 1, end);
    ValueGrows(text, from, p, end - 1);
  }

  /** The loop over the digits of a number that needs a double, from position `start` on. */
  method ParseDoubleDigits(text: Text, from: nat, start: nat, acc: nat) returns (p: nat, tooBig: bool)
    requires from < start && DigitAt(text, start) && AllDigits(text[from..start]) && acc == Value(text[from..start])
    ensures AllDigits(text[from..DigitsEnd(text, start)])
    ensures tooBig == TooManyDigits(text, from, DigitsEnd(text, start))
    ensures !tooBig ==> p == DigitsEnd(text, start)
  {
    DigitsJoin(text, from, start);
    ghost var end := DigitsEnd(text, start);
    var d := acc;
    p := start;
    while DigitAt(text, p)
      invariant from < start <= p <= end && DigitsEnd(text, p) == end && AllDigits(text[from..p])
      invariant d == Value(text[from..p])
      invariant p > start ==> !TooManyDigits(text, from, p)
      decreases |text| - p
    {
      if d >= DOUBLE_LIMIT {
        ReachedEarly(text, from, p, end);
        return p, true;
      }
      AnotherDigit(text, from, p);
      d := d * 10 + (text[p] - '0' as int);
      p := p + 1;
    }
    tooBig := false;
  }

  /** The digits of the fraction: the significand in 64 bits, as far as 53 bits suffice, and then in a double. */
  method ParseFraction(text: Text, start: nat, significand: nat, significantDigits: nat)
    returns (end: Lexed<nat>, counted: nat)
    requires start <= |text|
    ensures end == FractionEnd(text, start)
    ensures end.Lexed? ==>
              && AllDigits(FractionDigits(text, start, end.value))
              && counted == CountedDigits(significand, significantDigits, FractionDigits(text, start, end.value))
  {
    if start == |text| || text[start] != '.' as int { return Lexed(start, []), 0; }
    if !DigitAt(text, start + 1) { return Failed(NumberMissFraction), 0; }
    var p, i, significant, n := ParseFraction64(text, start + 1, significand, significantDigits);
    var m;
    p, m := ParseFraction17(text, p, i, significant);
    return Lexed(p, []), n + m;
  }

  /** The digits that the significand in 64 bits takes. */
  method ParseFraction64(text: Text, start: nat, significand: nat, significantDigits: nat)
    returns (p: nat, i: nat, significant: nat, n: nat)
    requires start <= |text|
    ensures start <= p <= |text| && DigitsEnd(text, p) == DigitsEnd(text, start)
    ensures p < DigitsEnd(text, p) ==> i > MAX_SIGNIFICAND
    ensures CountedDigits(significand, significantDigits, text[start..DigitsEnd(text, start)])
            == n + CountedDigits(i, significant, text[p..DigitsEnd(text, p)])
  {
    ghost var end := DigitsEnd(text, start);
    p, i, significant, n := start, significand, significantDigits, 0;
    while DigitAt(text, p) && i <= MAX_SIGNIFICAND
      invariant start <= p <= end && DigitsEnd(text, p) == end
      invariant CountedDigits(significand, significantDigits, text[start..end])
                == n + CountedDigits(i, significant, text[p..end])
      decreases |text| - p
    {
      assert text[p..end][1..] == text[p + 1..end];
      i := i * 10 + (text[p] - '0' as int);
      if i != 0 { significant := significant + 1; }
      p, n := p + 1, n + 1;
    }
  }

  /** The digits behind them, of which some still count. */
  method ParseFraction17(text: Text, start: nat, significand: nat, significantDigits: nat) returns (p: nat, n: nat)
    requires start <= |text| && (start < DigitsEnd(text, start) ==> significand > MAX_SIGNIFICAND)
    ensures p == DigitsEnd(text, start)
    ensures n == CountedDigits(significand, significantDigits, text[start..p])
  {
    var i: nat, significant: nat;
    p, i, significant, n := start, significand, significantDigits, 0;
    ghost var end := DigitsEnd(text, start);
    while DigitAt(text, p)
      invariant start <= p <= end && DigitsEnd(text, p) == end && (p < end ==> i > MAX_SIGNIFICAND)
      invariant CountedDigits(significand, significantDigits, text[start..end])
                == n + CountedDigits(i, significant, text[p..end])
      decreases |text| - p
    {
      assert text[p..end][1..] == text[p + 1..end];
      if significant < 17 {
        i, significant, n := i * 10 + (text[p] - '0' as int), significant + 1, n + 1;
      }
      p := p + 1;
    }
  }

  /** The exponent; a positive one that grows beyond `maxExp` ends the reading. */
  method ParseExponent(text: Text, start: nat, maxExp: nat) returns (end: Lexed<nat>)
    requires start <= |text| && maxExp >= 9
    ensures end == ExponentEnd(text, start, maxExp)
  {
    if start == |text| || (text[start] != 'e' as int && text[start] != 'E' as int) { return Lexed(start, []); }
    var p, expMinus := start + 1, false;
    if p < |text| && (text[p] == '+' as int || text[p] == '-' as int) {
      expMinus := text[p] == '-' as int;
      p := p + 1;
    }
    if !DigitAt(text, p) { return Failed(NumberMissExponent); }
    var tooBig;
    p, tooBig := ParseExponentDigits(text, p, expMinus, maxExp);
    end := if tooBig then Failed(NumberTooBig) else Lexed(p, []);
  }

  method ParseExponentDigits(text: Text, start: nat, expMinus: bool, maxExp: nat) returns (p: nat, tooBig: bool)
    requires DigitAt(text, start) && maxExp >= 9
    ensures tooBig == (!expMinus && Value(text[start..DigitsEnd(text, start)]) > maxExp)
    ensures !tooBig ==> p == DigitsEnd(text, start)
  {
    OneDigit(text, start);
    ghost var end := DigitsEnd(text, start);
    var exp := text[start] - '0' as int;
    p := start + 1;
    while DigitAt(text, p)
      invariant start < p <= end && DigitsEnd(text, p) == end && AllDigits(text[start..p])
      invariant !expMinus ==> exp == Value(text[start..p]) <= maxExp
      decreases |text| - p
    {
      AnotherDigit(text, start, p);
      exp := exp * 10 + (text[p] - '0' as int);
      p := p + 1;
      if !expMinus && exp > maxExp {
        ValueGrows(text, start, p, end);
        return p, true;
      }
    }
    tooBig := false;
  }

  lemma OneDigit(text: Text, p: nat)
    requires DigitAt(text, p)
    ensures AllDigits(text[p..p + 1]) && Value(text[p..p + 1]) == text[p] - '0' as int
    ensures DigitsEnd(text, p) == DigitsEnd(text, p + 1)
  {
    assert text[p..p + 1] == [text[p]] && text[p..p] == [];
    ValueSnoc(text, p, p);
  }

  /** Digits that begin with `1` to `9`: 32 bits as long as they suffice, and then 64 bits, up to a digit
      for which these do not suffice either. */
  method ParseInteger(text: Text, minus: bool, from: nat) returns (p: nat, i: nat, use64bit: bool, useDouble: bool)
    requires from < |text| && '1' as int <= text[from] <= '9' as int
    ensures var end := DigitsEnd(text, from);
            && from < p <= end == DigitsEnd(text, p) && AllDigits(text[from..end]) && AllDigits(text[from..p])
            && i == Value(text[from..p]) && (if useDouble then p < end else p == end)
            && (use64bit <==> Value(text[from..end]) > if minus then MAX_INT_MAGNITUDE else MAX_UINT)
            && (useDouble <==> Value(text[from..end]) > if minus then MAX_INT64_MAGNITUDE else MAX_UINT64)
    ensures useDouble ==> i > MAX_SIGNIFICAND && p - from >= 18
  {
    p, i, use64bit := ParseInteger32(text, minus, from);
    useDouble := false;
    if use64bit {
      p, i, useDouble := ParseInteger64(text, minus, from, p, i);
    }
  }

  method ParseInteger32(text: Text, minus: bool, from: nat) returns (p: nat, i: nat, use64bit: bool)
    requires from < |text| && '1' as int <= text[from] <= '9' as int
    ensures var end := DigitsEnd(text, from);
            && from < p <= end == DigitsEnd(text, p) && AllDigits(text[from..end]) && AllDigits(text[from..p])
            && i == Value(text[from..p]) && (if use64bit then p < end else p == end)
            && (use64bit <==> Value(text[from..end]) > if minus then MAX_INT_MAGNITUDE else MAX_UINT)
    ensures i <= MAX_UINT
  {
    OneDigit(text, from);
    i := text[from] - '0' as int;
    if minus {
      p, i, use64bit := ParseDigits(text, from, from + 1, i, 214748364, 8);
    } else {
      p, i, use64bit := ParseDigits(text, from, from + 1, i, 429496729, 5);
    }
    DigitsJoin(text, from, p);
    if use64bit { ValueGrows(text, from, p + 1, DigitsEnd(text, from)); }
  }

  method ParseInteger64(text: Text, minus: bool, from: nat, start: nat, acc: nat)
    returns (p: nat, i: nat, useDouble: bool)
    requires from < start <= |text| && AllDigits(text[from..start])
    requires acc == Value(text[from..start]) <= MAX_UINT
    ensures var end := DigitsEnd(text, start);
            && start <= p <= end == DigitsEnd(text, p) && AllDigits(text[from..end]) && AllDigits(text[from..p])
            && i == Value(text[from..p]) && (if useDouble then p < end else p == end)
            && (useDouble <==> Value(text[from..end]) > if minus then MAX_INT64_MAGNITUDE else MAX_UINT64)
    ensures useDouble ==> i > MAX_SIGNIFICAND && p - from >= 18
  {
    if minus {
      p, i, useDouble := ParseDigits(text, from, start, acc, 0x0CCC_CCCC_CCCC_CCCC, 8);
    } else {
      p, i, useDouble := ParseDigits(text, from, start, acc, 0x1999_9999_9999_9999, 5);
    }
    DigitsJoin(text, from, p);
    if useDouble {
      ValueGrows(text, from, p + 1, DigitsEnd(text, p));
      ManyDigits(text, from, p);
    }
  }

  lemma ManyDigits(text: Text, from: nat, p: nat)
    requires from <= p < |text| && AllDigits(text[from..p + 1]) && Value(text[from..p + 1]) > MAX_INT64_MAGNITUDE
    ensures AllDigits(text[from..p]) && Value(text[from..p]) > MAX_SIGNIFICAND && p - from >= 18
  {
    ValueSnoc(text, from, p);
    SeventeenDigits();
    DigitsBound(text[from..p]);
    if p - from <= 17 { MorePower(10, p - from, 17); }
  }

  lemma SeventeenDigits()
    ensures Power10(17) == 100000000000000000
  {
    assert Power(10, 8) == 100000000 && Power(10, 9) == 1000000000;
    PowerAdd(10, 8, 9);
  }

  lemma {:induction false} DigitsBound(digits: Text)
    requires AllDigits(digits)
    ensures Value(digits) < Power10(|digits|)
  {
    if digits != [] { DigitsBound(digits[..|digits| - 1]); }
  }

  lemma DigitsJoin(text: Text, from: nat, p: nat)
    requires from <= p <= |text| && AllDigits(text[from..p])
    ensures AllDigits(text[from..DigitsEnd(text, p)])
  {
    assert text[from..DigitsEnd(text, p)] == text[from..p] + text[p..DigitsEnd(text, p)];
  }

  method ParseNumber(text: Text) returns (number: Lexed<Number>)
    ensures number == ReadNumber(text)
  {
    var minus := text != [] && text[0] == '-' as int;
    var from := if minus then 1 else 0;
    if !(from < |text| && '0' as int <= text[from] <= '9' as int) { return Failed(ValueInvalid); }
    var p, i, use64bit, useDouble, significandDigit, tooBig := ParseIntegerPart(text, minus, from);
    if tooBig { return Failed(NumberTooBig); }
    var end, code := ParseFractionAndExponent(text, p, i, significandDigit, from);
    if code.Some? { return Failed(code.value); }
    var value := if useDouble || end > p then Double(text[..end])
                 else if use64bit then
                   if minus then Int64(Negated(i, 0x1_0000_0000_0000_0000)) else Uint64(i)
                 else
                   if minus then Int(Negated(i, 0x1_0000_0000)) else Uint(i);
    number := Lexed(value, text[end..]);
  }

  /** What the methods for the fraction and the exponent are given of the integer part. */
  predicate Significand(text: Text, from: nat, p: nat, i: nat, significandDigit: nat)
    requires from < p <= |text| && AllDigits(text[from..p])
  {
    || (i == Value(text[from..p]) && significandDigit == p - from - 1)
    || (&& i > MAX_SIGNIFICAND && Value(text[from..p]) > MAX_SIGNIFICAND
        && significandDigit >= 17 && p - from - 1 >= 17)
  }

  /** A zero, or digits that begin with another one. */
  method ParseIntegerPart(text: Text, minus: bool, from: nat)
    returns (p: nat, i: nat, use64bit: bool, useDouble: bool, significandDigit: nat, tooBig: bool)
    requires from < |text| && '0' as int <= text[from] <= '9' as int
    ensures var end := IntegerEnd(text, from);
            && from < end && tooBig == TooManyDigits(text, from, end)
            && (use64bit <==> Value(text[from..end]) > if minus then MAX_INT_MAGNITUDE else MAX_UINT)
            && (useDouble <==> Value(text[from..end]) > if minus then MAX_INT64_MAGNITUDE else MAX_UINT64)
            && (!useDouble ==> i == Value(text[from..end]))
            && (!tooBig ==> p == end && Significand(text, from, p, i, significandDigit))
  {
    p, i, use64bit, useDouble, tooBig := from + 1, 0, false, false, false;
    if text[from] == '0' as int {
      OneDigit(text, from);
    } else {
      p, i, use64bit, useDouble := ParseInteger(text, minus, from);
    }
    significandDigit := p - from - 1;
    if useDouble {
      p, tooBig := ParseDoubleDigits(text, from, p, i);
      if !tooBig { ValueGrows(text, from, from + significandDigit + 1, p); }
    } else {
      FewDigits(text, from, p);
    }
  }

  /** A number that 64 bits can hold is not too big. */
  lemma FewDigits(text: Text, from: nat, p: nat)
    requires from < p <= |text| && AllDigits(text[from..p]) && Value(text[from..p]) <= MAX_UINT64
    ensures !TooManyDigits(text, from, p)
  {
    LimitIsGreat();
    ValueGrows(text, from, p - 1, p);
  }

  /** The rest of a number whose integer part ends at `p`. */
  method ParseFractionAndExponent(text: Text, p: nat, i: nat, significandDigit: nat, ghost from: nat)
    returns (end: nat, code: Option<ErrorCode>)
    requires from < p <= |text| && AllDigits(text[from..p]) && Significand(text, from, p, i, significandDigit)
    ensures var fraction := FractionEnd(text, p);
            if fraction.Failed? then code == Some(fraction.code)
            else
              && AllDigits(FractionDigits(text, p, fraction.value))
              && var exponent := ExponentEnd(text, fraction.value, MaxExponent(text, from, p, fraction.value));
                 if exponent.Failed? then code == Some(exponent.code) else code == None && end == exponent.value
  {
    end, code := p, None;
    var fraction, counted := ParseFraction(text, p, i, significandDigit);
    if fraction.Failed? { return p, Some(fraction.code); }
    var exponent := ParseExponent(text, fraction.value, 308 + counted);
    if exponent.Failed? { return p, Some(exponent.code); }
    end := exponent.value;
  }
}
