/** The PostgreSQL NUMERIC codec: `BigDecimal` -> `PgNumeric` -> wire bytes and back.
    A `BigInt` is a mathematical integer; `to_radix_be` and `from_radix_be` are
    `Radix.Decimal` and `Radix.Horner`. */
module Numeric {
  import opened Bytes
  import opened Radix

  datatype Error = NotANumberUnsupported | ScaleOverflow | WeightOverflow | DigitOutOfRange
                 | InvalidSign | Panic
  datatype Result<+T> = Ok(value: T) | Err(error: Error)

  datatype Sign = Positive | Negative

  datatype PgNumeric =
    | NotANumber
    | Number(sign: Sign, digits: seq<i16>, weight: i16, scale: i16)

  /** `n * 10^-exp`, the pair `as_bigint_and_exponent` returns. */
  datatype BigDecimal = BigDecimal(n: int, exp: int)

  // ---------------------------------------------------------------- meaning

  ghost function Value(d: BigDecimal): real { d.n as real * TenTo(-d.exp) }

  /** `digits[0] * 10000^weight + digits[1] * 10000^(weight - 1) + ...` */
  ghost function DigitSum(digits: seq<int>, weight: int): real {
    if digits == [] then 0.0
    else
      var k := |digits| - 1;
      DigitSum(digits[..k], weight) + digits[k] as real * TenTo(4 * (weight - k))
  }

  ghost function NumericValue(num: PgNumeric): real
    requires num.Number?
  {
    if num.sign.Positive? then DigitSum(num.digits, num.weight) else -DigitSum(num.digits, num.weight)
  }

  /** The form PostgreSQL itself keeps: base-10000 digits with no zero at either end. */
  ghost predicate Canonical(num: PgNumeric) {
    && num.Number?
    && InBase(10000, num.digits)
    && num.scale >= 0
    && (num.digits == [] ==> num.sign.Positive?)
    && (num.digits != [] ==> num.digits[0] > 0 && num.digits[|num.digits| - 1] > 0)
  }

  /** The weight computed from the count of decimal digits before the point. Rust's `/`
      truncates toward zero. */
  function WeightOf(weight10: int): (w: int)
    ensures 4 * w < weight10 <= 4 * (w + 1)
  {
    if weight10 <= 0 then -(-weight10 / 4) - 1 else (weight10 - 1) / 4
  }

  function Abs(n: int): nat { if n < 0 then -n else n }

  function Weight10(d: BigDecimal): int { |Decimal(Abs(d.n))| - d.exp }

  predicate FitsI16(x: int) { -0x8000 <= x < 0x8000 }

  const TWO63: int := 0x8000_0000_0000_0000

  /** What 64-bit arithmetic makes of a number. */
  function WrapI64(x: int): (y: int)
    ensures -0x8000_0000_0000_0000 <= y < 0x8000_0000_0000_0000 && (y - x) % 0x1_0000_0000_0000_0000 == 0
  {
    (x + TWO63) % (2 * TWO63) - TWO63
  }

  /** The code computes the position of the leading digit in `i64`. For every `i64` exponent and fewer than 2^62 decimal
      digits, overflow changes nothing: the weight fits exactly if it does without wrapping, and then there
      was no overflow. */
  lemma WrappedPosition(d: BigDecimal)
    requires -TWO63 <= d.exp < TWO63 && |Decimal(Abs(d.n))| < 0x4000_0000_0000_0000
    ensures FitsI16(WeightOf(WrapI64(Weight10(d)))) <==> FitsI16(WeightOf(Weight10(d)))
    ensures FitsI16(WeightOf(Weight10(d))) ==> WrapI64(Weight10(d)) == Weight10(d)
  {
    hide Decimal;
    var x := Weight10(d);
    if x < TWO63 {
      assert WrapI64(x) == x;
    } else {
      assert WrapI64(x) == x - 2 * TWO63;
    }
  }

  // ---------------------------------------------------------------- arithmetic

  lemma RealMul(a: int, b: int)
    ensures (a * b) as real == a as real * b as real
  {
  }

  lemma RealAssoc(x: real, y: real, z: real)
    ensures x * (y * z) == (x * y) * z
  {
  }

  lemma TenToFour(k: int)
    ensures TenTo(k + 4) == 10000.0 * TenTo(k)
  {
    TenToNext(k);
    TenToNext(k + 1);
    TenToNext(k + 2);
    TenToNext(k + 3);
  }

  lemma ShiftDigit(h: int, last: int, big: real, small: real)
    requires big == 10000.0 * small
    ensures h as real * big + last as real * small == (h * 10000 + last) as real * small
  {
    var hr, lr := h as real, last as real;
    assert (h * 10000 + last) as real == 10000.0 * hr + lr;
    assert hr * big == hr * (10000.0 * small);
    assert (10000.0 * hr + lr) * small == 10000.0 * (hr * small) + lr * small;
  }

  /** The positional sum is the base-10000 number shifted by the position `10^e` of its last
      digit. */
  ghost predicate SumIsShiftedHorner(digits: seq<int>, weight: int, e: int) {
    DigitSum(digits, weight) == Horner(10000, digits) as real * TenTo(e)
  }

  lemma DigitSumStep(digits: seq<int>, weight: int, e: int)
    requires digits != [] && e == 4 * (weight - (|digits| - 1))
    requires SumIsShiftedHorner(digits[..|digits| - 1], weight, e + 4)
    ensures SumIsShiftedHorner(digits, weight, e)
  {
    hide TenTo;
    var k := |digits| - 1;
    TenToFour(e);
    ShiftDigit(Horner(10000, digits[..k]), digits[k], TenTo(e + 4), TenTo(e));
  }

  lemma {:induction false} DigitSumIsHorner(digits: seq<int>, weight: int, e: int)
    requires e == 4 * (weight + 1 - |digits|)
    ensures SumIsShiftedHorner(digits, weight, e)
  {
    if digits != [] {
      DigitSumIsHorner(digits[..|digits| - 1], weight, e + 4);
      DigitSumStep(digits, weight, e);
    }
  }

  /** Four decimal digits, the last `pad` of them zeros added for alignment, are one
      base-10000 digit. */
  lemma ChunkStep(digits: seq<int>, base10: seq<int>, from: nat, to: nat, pad: nat, digit: int)
    requires from <= to <= |base10| && to - from + pad == 4
    requires Horner(10000, digits) == Horner(10, base10[..from])
    requires digit == Horner(10, base10[from..to]) * Pow(10, pad)
    ensures Horner(10000, digits + [digit]) == Horner(10, base10[..to]) * Pow(10, pad)
  {
    hide Pow, Horner;
    var h, c, p, q := Horner(10, base10[..from]), Horner(10, base10[from..to]), Pow(10, to - from), Pow(10, pad);
    assert base10[..to] == base10[..from] + base10[from..to];
    HornerConcat(10, base10[..from], base10[from..to]);
    PowAdd(10, to - from, pad);
    PowFour();
    HornerSnoc(10000, digits, digit);
    FoldChunk(h, c, p, q);
  }

  lemma FoldChunk(h: int, c: int, p: int, q: int)
    requires p * q == 10000
    ensures h * 10000 + c * q == (h * p + c) * q
  {
    calc {
      h * 10000 + c * q;
      h * (p * q) + c * q;
      (h * p + c) * q;
    }
  }

  lemma PowFour()
    ensures Pow(10, 4) == 10000
  {
    assert Pow(10, 1) == 10 && Pow(10, 2) == 100 && Pow(10, 3) == 1000;
  }

  ghost predicate SumsTo(digits: seq<int>, weight: int, n: int, exp: int) {
    DigitSum(digits, weight) == n as real * TenTo(-exp)
  }

  lemma BuiltValue(digits: seq<int>, weight: int, n: nat, exp: int, t: nat)
    requires Horner(10000, digits) == n * Pow(10, t)
    requires 4 * (weight + 1 - |digits|) == -exp - t
    ensures SumsTo(digits, weight, n, exp)
  {
    hide TenTo, Pow;
    var e, p := -exp - t, Pow(10, t);
    DigitSumIsHorner(digits, weight, e);
    TenToAdd(e, t);
    TenToPow(t);
    FoldPower(n, p, TenTo(e), TenTo(-exp), DigitSum(digits, weight));
  }

  lemma FoldPower(n: int, p: int, x: real, y: real, sum: real)
    requires sum == (n * p) as real * x && y == x * p as real
    ensures sum == n as real * y
  {
    RealMul(n, p);
    RealAssoc(n as real, p as real, x);
  }

  // ---------------------------------------------------------------- BigDecimal -> PgNumeric

  /** `base_10_to_10000`: no step leaves the range of `i16`. */
  method Base10To10000(chunk: seq<int>) returns (a: i16)
    requires |chunk| <= 4 && InBase(10, chunk)
    ensures a == Horner(10, chunk) && 0 <= a < Pow(10, |chunk|)
  {
    a := 0;
    var i := 0;
    PowFour();
    while i < |chunk|
      invariant i <= |chunk|
      invariant a == Horner(10, chunk[..i]) && 0 <= a < Pow(10, i)
    {
      assert chunk[..i + 1] == chunk[..i] + [chunk[i]];
      HornerSnoc(10, chunk[..i], chunk[i]);
      PowAdd(10, i + 1, 3 - i);
      MulLe(1, Pow(10, 3 - i), Pow(10, i + 1));
      a := a * 10 + chunk[i];
      i := i + 1;
    }
    assert chunk[..i] == chunk;
  }

  /** One digit of the result: a chunk shifted left to fill its four places. */
  method ShiftedDigit(chunk: seq<int>, pad: nat) returns (digit: i16)
    requires chunk != [] && |chunk| + pad <= 4 && InBase(10, chunk)
    ensures digit == Horner(10, chunk) * Pow(10, pad) && 0 <= digit < 10000
    ensures chunk[0] > 0 ==> digit > 0
  {
    var a := Base10To10000(chunk);
    var p := Pow(10, pad);
    PowFour();
    PowAdd(10, |chunk|, pad);
    PowAdd(10, |chunk| + pad, 4 - |chunk| - pad);
    MulLe(1, Pow(10, 4 - |chunk| - pad), Pow(10, |chunk| + pad));
    MulLe(a, Pow(10, |chunk|) - 1, p);
    if chunk[0] > 0 {
      HornerLeading(10, chunk);
      MulLe(1, a, p);
    }
    digit := a * p;
  }

  /** Dropping a zero digit at the end does not change the sum. */
  lemma DropZero(digits: seq<int>, weight: int)
    requires digits != [] && digits[|digits| - 1] == 0
    ensures DigitSum(digits[..|digits| - 1], weight) == DigitSum(digits, weight)
  {
  }

  /** The `while let Some(&0) = digits.last()` loop: exactly the zeros at the end go. */
  method StripTrailingZeros(digits: seq<i16>, ghost weight: int) returns (stripped: seq<i16>)
    ensures stripped <= digits
    ensures forall i :: |stripped| <= i < |digits| ==> digits[i] == 0
    ensures stripped != [] ==> stripped[|stripped| - 1] != 0
    ensures DigitSum(stripped, weight) == DigitSum(digits, weight)
  {
    stripped := digits;
    while |stripped| > 0 && stripped[|stripped| - 1] == 0
      invariant stripped <= digits
      invariant forall i :: |stripped| <= i < |digits| ==> digits[i] == 0
      invariant DigitSum(stripped, weight) == DigitSum(digits, weight)
    {
      DropZero(stripped, weight);
      stripped := stripped[..|stripped| - 1];
    }
  }

  lemma SignedValue(d: BigDecimal, digits: seq<int>, weight: int)
    requires SumsTo(digits, weight, Abs(d.n), d.exp)
    ensures Value(d) == if d.n < 0 then -DigitSum(digits, weight) else DigitSum(digits, weight)
  {
    hide TenTo, DigitSum;
    var x := TenTo(-d.exp);
    assert d.n < 0 ==> d.n as real == -(Abs(d.n) as real);
    assert d.n < 0 ==> d.n as real * x == -(Abs(d.n) as real * x);
  }

  /** `TryFrom<&BigDecimal> for PgNumeric`. */
  method FromBigDecimal(d: BigDecimal) returns (r: Result<PgNumeric>)
    ensures r.Err? && r.error == ScaleOverflow <==> d.exp >= 0x8000
    ensures r.Err? && r.error == WeightOverflow <==> d.exp < 0x8000 && !(-0x8000 <= WeightOf(Weight10(d)) < 0x8000)
    ensures r.Err? ==> r.error in {ScaleOverflow, WeightOverflow}
    ensures r.Ok? ==> Canonical(r.value) && NumericValue(r.value) == Value(d)
    ensures r.Ok? ==> r.value.scale == if d.exp > 0 then d.exp else 0
    ensures r.Ok? ==> r.value.weight == WeightOf(Weight10(d))
    ensures r.Ok? ==> (r.value.digits == [] <==> d.n == 0) && (r.value.sign.Negative? <==> d.n < 0)
  {
    hide TenTo, Pow, Horner, Decimal, DigitSum, Value, WeightOf;
    var n := Abs(d.n);
    var base10 := Decimal(n);
    var weight10 := |base10| - d.exp;
    var scale := if d.exp > 0 then d.exp else 0;
    if !FitsI16(scale) {
      return Err(ScaleOverflow);
    }
    var weight := WeightOf(weight10);
    if !FitsI16(weight) {
      return Err(WeightOverflow);
    }
    var digits := Regroup(n, base10, weight10 % 4);
    ghost var t :| t >= 0 && Built(n, base10, weight10 % 4, digits, t);
    BuiltValue(digits, weight, n, d.exp, t);
    assert n == 0 || digits[0] > 0;
    digits := StripTrailingZeros(digits, weight);
    SignedValue(d, digits, weight);
    r := Ok(Number(if d.n < 0 then Negative else Positive, digits, weight, scale));
  }

  /** `digits` spell the decimal digits `base10` of `n`, preceded by zeros that complete the
      first group (its size is `offset`, or four when that is 0) and followed by `t` zeros. */
  ghost predicate Built(n: nat, base10: seq<int>, offset: nat, digits: seq<int>, t: nat) {
    && 4 * |digits| == (if offset == 0 then 0 else 4 - offset) + |base10| + t
    && Horner(10000, digits) == n * Pow(10, t)
    && InBase(10000, digits)
    && digits != []
    && (n > 0 ==> digits[0] > 0)
    && (n == 0 ==> forall i :: 0 <= i < |digits| ==> digits[i] == 0)
  }

  /** `digits` spell the first `i` of `base10`, the last `pad` of those being added zeros. */
  ghost predicate Grouped(n: nat, base10: seq<int>, offset: nat, digits: seq<int>, i: nat, pad: nat) {
    && offset <= i && pad < 4 && pad <= i
    && (if i < |base10| then pad == 0 else i - pad == |base10|)
    && 4 * |digits| == (if offset == 0 then 0 else 4 - offset) + i
    && Horner(10000, digits) == Horner(10, base10[..i - pad]) * Pow(10, pad)
    && InBase(10000, digits)
    && (digits != [] && n > 0 ==> digits[0] > 0)
    && (n == 0 ==> forall i :: 0 <= i < |digits| ==> digits[i] == 0)
  }

  lemma PowZero()
    ensures Pow(10, 0) == 1
  {
  }

  lemma ZeroDigit()
    ensures Horner(10, [0]) == 0
  {
    assert [] + [0] == [0];
    HornerSnoc(10, [], 0);
  }

  lemma SingleDigit(a: int)
    ensures Horner(10000, [a]) == a
  {
    assert [] + [a] == [a];
    HornerSnoc(10000, [], a);
  }

  method FirstGroup(n: nat, base10: seq<int>, offset: nat) returns (digits: seq<i16>)
    requires offset < 4 && offset <= |base10| && base10 == Decimal(n)
    ensures Grouped(n, base10, offset, digits, offset, 0)
  {
    digits := [];
    var first := base10[..offset];
    if first != [] {
      var a := ShiftedDigit(first, 0);
      digits := [a];
      SingleDigit(a);
    }
  }

  method NextGroup(n: nat, base10: seq<int>, offset: nat, digits: seq<i16>, i: nat) returns (digits': seq<i16>)
    requires offset < 4 && i < |base10| && base10 == Decimal(n)
    requires Grouped(n, base10, offset, digits, i, 0)
    ensures Grouped(n, base10, offset, digits', i + 4, if i + 4 <= |base10| then 0 else i + 4 - |base10|)
  {
    hide Pow, Horner, Decimal;
    var to := if i + 4 <= |base10| then i + 4 else |base10|;
    var digit := ShiftedDigit(base10[i..to], i + 4 - to);
    PowZero();
    ChunkStep(digits, base10, i, to, i + 4 - to, digit);
    digits' := digits + [digit];
    if n == 0 {
      assert base10[i..to] == [0];
      ZeroDigit();
    }
  }

  method Regroup(n: nat, base10: seq<int>, offset: nat) returns (digits: seq<i16>)
    requires offset < 4 && base10 == Decimal(n)
    ensures exists t: nat :: Built(n, base10, offset, digits, t)
  {
    if offset <= |base10| {
      digits := FirstGroup(n, base10, offset);
      var i := offset;
      ghost var pad: nat := 0;
      while i < |base10|
        invariant Grouped(n, base10, offset, digits, i, pad)
      {
        digits := NextGroup(n, base10, offset, digits, i);
        i := i + 4;
        pad := if i <= |base10| then 0 else i - |base10|;
      }
      assert base10[..i - pad] == base10;
      assert Built(n, base10, offset, digits, pad);
    } else {
      var a := ShiftedDigit(base10, offset - |base10|);
      digits := [a];
      SingleDigit(a);
      assert Built(n, base10, offset, digits, offset - |base10|);
    }
  }

  // ---------------------------------------------------------------- canonical form is unique

  lemma Cancel(a: int, b: int, p: int, x: real, y: real)
    requires x > 0.0 && y == x * p as real && a as real * x == b as real * y
    ensures a == b * p
  {
    RealMul(b, p);
    assert (a as real - b as real * p as real) * x == 0.0;
  }

  lemma {:induction false} PowFourTimes(m: nat)
    ensures Pow(10, 4 * m) == Pow(10000, m)
  {
    if m > 0 {
      PowFourTimes(m - 1);
      PowFour();
      PowAdd(10, 4, 4 * (m - 1));
    }
  }

  lemma DigitSumSign(digits: seq<int>, weight: int)
    requires InBase(10000, digits)
    ensures digits == [] ==> DigitSum(digits, weight) == 0.0
    ensures digits != [] && digits[0] > 0 ==> DigitSum(digits, weight) > 0.0
  {
    if digits != [] && digits[0] > 0 {
      hide TenTo;
      var e := 4 * (weight + 1 - |digits|);
      DigitSumIsHorner(digits, weight, e);
      HornerLeading(10000, digits);
      PositiveProduct(Horner(10000, digits), TenTo(e));
    }
  }

  lemma PositiveProduct(h: int, x: real)
    requires h > 0 && x > 0.0
    ensures h as real * x > 0.0
  {
  }

  /** If the last digit of `a` stands further right, `a` is `b` with zeros appended. */
  lemma AlignedHorner(a: seq<int>, wa: int, b: seq<int>, wb: int, m: nat)
    requires wb + 1 - |b| == wa + 1 - |a| + m
    requires DigitSum(a, wa) == DigitSum(b, wb)
    ensures Horner(10000, a) == Horner(10000, b + Zeros(m))
  {
    hide TenTo, Pow, DigitSum, Horner;
    var ea, eb := 4 * (wa + 1 - |a|), 4 * (wb + 1 - |b|);
    DigitSumIsHorner(a, wa, ea);
    DigitSumIsHorner(b, wb, eb);
    TenToAdd(ea, 4 * m);
    TenToPow(4 * m);
    Cancel(Horner(10000, a), Horner(10000, b), Pow(10, 4 * m), TenTo(ea), TenTo(eb));
    PowFourTimes(m);
    HornerZeros(10000, b, m);
  }

  lemma CanonicalDigits(a: seq<int>, wa: int, b: seq<int>, wb: int)
    requires InBase(10000, a) && InBase(10000, b) && a != [] && b != []
    requires a[0] > 0 && b[0] > 0 && a[|a| - 1] > 0 && b[|b| - 1] > 0
    requires DigitSum(a, wa) == DigitSum(b, wb)
    requires wa + 1 - |a| <= wb + 1 - |b|
    ensures a == b && wa == wb
  {
    hide DigitSum;
    var m := (wb + 1 - |b|) - (wa + 1 - |a|);
    AlignedHorner(a, wa, b, wb, m);
    var c := b + Zeros(m);
    assert m > 0 ==> c[|c| - 1] == 0;
    NotShorter(a, c);
    NotShorter(c, a);
    HornerInjective(10000, a, c);
    assert c[|c| - 1] > 0;
  }

  lemma NotShorter(a: seq<int>, b: seq<int>)
    requires InBase(10000, a) && InBase(10000, b) && b != [] && b[0] > 0
    requires Horner(10000, a) == Horner(10000, b)
    ensures |a| >= |b|
  {
    HornerBound(10000, a);
    HornerLeading(10000, b);
    PowMono(10000, |a|, if |a| < |b| then |b| - 1 else |a|);
  }

  lemma PowMono(b: nat, j: nat, k: nat)
    requires j <= k && b > 0
    ensures Pow(b, j) <= Pow(b, k)
  {
    hide Pow;
    PowAdd(b, j, k - j);
    MulLe(1, Pow(b, k - j), Pow(b, j));
  }

  /** Two canonical numerics of equal value have the same sign and digits, and the same weight
      unless they are zero. */
  lemma CanonicalUnique(x: PgNumeric, y: PgNumeric)
    requires Canonical(x) && Canonical(y) && NumericValue(x) == NumericValue(y)
    ensures x.sign == y.sign && x.digits == y.digits
    ensures x.digits != [] ==> x.weight == y.weight
  {
    hide DigitSum;
    DigitSumSign(x.digits, x.weight);
    DigitSumSign(y.digits, y.weight);
    if x.digits != [] && y.digits != [] {
      if x.weight + 1 - |x.digits| <= y.weight + 1 - |y.digits| {
        CanonicalDigits(x.digits, x.weight, y.digits, y.weight);
      } else {
        CanonicalDigits(y.digits, y.weight, x.digits, x.weight);
      }
    }
  }

  /** Decimals of equal value get the same sign, weight and digits exactly when they are not
      zero or their exponents lead to one weight: the weight of a zero depends on its exponent. */
  method EqualValuesAgree(d: BigDecimal, e: BigDecimal) returns (x: Result<PgNumeric>, y: Result<PgNumeric>)
    requires Value(d) == Value(e)
    ensures x.Ok? ==> x.value.Number?
    ensures y.Ok? ==> y.value.Number?
    ensures x.Ok? && y.Ok? ==> x.value.sign == y.value.sign && x.value.digits == y.value.digits
    ensures x.Ok? && y.Ok? ==>
              (x.value.weight == y.value.weight <==> d.n != 0 || WeightOf(1 - d.exp) == WeightOf(1 - e.exp))
  {
    hide Value, DigitSum, WeightOf;
    x := FromBigDecimal(d);
    y := FromBigDecimal(e);
    if x.Ok? && y.Ok? {
      CanonicalUnique(x.value, y.value);
    }
  }

  /** Zero with exponent 0 and zero with exponent 8 are equal and get the weights 0 and -2. */
  method ZerosOfDifferentWeight() returns (x: Result<PgNumeric>, y: Result<PgNumeric>)
    ensures Value(BigDecimal(0, 0)) == Value(BigDecimal(0, 8))
    ensures x == Ok(Number(Positive, [], 0, 0)) && y == Ok(Number(Positive, [], -2, 8))
  {
    hide DigitSum;
    x := FromBigDecimal(BigDecimal(0, 0));
    y := FromBigDecimal(BigDecimal(0, 8));
  }

  // ---------------------------------------------------------------- PgNumeric -> BigDecimal

  /** Rust's `/` and `%` on `i16` truncate toward zero; `as u8` keeps the low byte. */
  function CentHigh(digit: i16): byte {
    var d: int := digit;
    (if d < 0 then -(-d / 100) else d / 100) % 0x100
  }

  function CentLow(digit: i16): byte {
    var d: int := digit;
    (if d < 0 then -(-d % 100) else d % 100) % 0x100
  }

  /** They are quotient and remainder of truncating division by 100, modulo 256. */
  lemma CentsTruncate(d: i16, q: int, r: int)
    requires d == 100 * q + r && -100 < r < 100 && (r > 0 ==> d > 0) && (r < 0 ==> d < 0)
    ensures CentHigh(d) == q % 0x100 && CentLow(d) == r % 0x100
  {
    var x: int := d;
    if x < 0 {
      assert -x / 100 == -q && -x % 100 == -r;
    } else {
      assert x / 100 == q && x % 100 == r;
    }
  }

  /** Digits the conversion lets through. Besides 0..9999 there are out-of-range digits whose
      two cents wrap into range. */
  predicate Accepted(d: i16) {
    0 <= d < 10000 || d >= 25600 || (-25600 <= d <= -15700 && d % 100 == 0)
  }

  lemma CentsInRange(d: i16)
    ensures CentHigh(d) < 100 && CentLow(d) < 100 <==> Accepted(d)
    ensures 0 <= d < 10000 ==> CentHigh(d) * 100 + CentLow(d) == d
  {
  }

  /** What the conversion takes each digit for. */
  function TakenAs(digits: seq<i16>): seq<int> {
    seq(|digits|, i requires 0 <= i < |digits| => CentHigh(digits[i]) * 100 + CentLow(digits[i]))
  }

  lemma TakenAsItself(digits: seq<i16>)
    requires InBase(10000, digits)
    ensures TakenAs(digits) == digits
  {
    forall i | 0 <= i < |digits| ensures TakenAs(digits)[i] == digits[i] {
      CentsInRange(digits[i]);
    }
  }

  lemma TwoCents(cents: seq<int>, digits: seq<int>, hi: int, lo: int)
    requires Horner(100, cents) == Horner(10000, digits)
    ensures Horner(100, cents + [hi, lo]) == Horner(10000, digits + [hi * 100 + lo])
  {
    assert cents + [hi, lo] == (cents + [hi]) + [lo];
    HornerSnoc(100, cents + [hi], lo);
    HornerSnoc(100, cents, hi);
    HornerSnoc(10000, digits, hi * 100 + lo);
  }

  /** `TryFrom<PgNumeric> for BigDecimal`, through base 100. */
  method ToBigDecimal(num: PgNumeric) returns (r: Result<BigDecimal>)
    ensures num.NotANumber? ==> r == Err(NotANumberUnsupported)
    ensures num.Number? && num.digits == [] ==> r == Ok(BigDecimal(0, 0))
    ensures num.Number? ==> (r.Ok? <==> forall i :: 0 <= i < |num.digits| ==> Accepted(num.digits[i]))
    ensures num.Number? && r.Err? ==> r.error == DigitOutOfRange
    ensures num.Number? && InBase(10000, num.digits) ==> r.Ok? && Value(r.value) == NumericValue(num)
    ensures num.Number? && r.Ok? && num.digits != [] ==>
              && r.value.exp == 4 * (|num.digits| - num.weight - 1)
              && r.value.n == (if num.sign.Positive? then 1 else -1) * Horner(10000, TakenAs(num.digits))
  {
    hide TenTo, Horner, DigitSum;
    if num.NotANumber? {
      return Err(NotANumberUnsupported);
    }
    if num.digits == [] {
      ZeroSum(num.weight);
      return Ok(BigDecimal(0, 0));
    }
    var scale := (|num.digits| - num.weight - 1) * 4;
    var cents: seq<int>, i := [], 0;
    NoDigits();
    while i < |num.digits|
      invariant i <= |num.digits|
      invariant InBase(100, cents) <==> forall k :: 0 <= k < i ==> Accepted(num.digits[k])
      invariant forall k :: 0 <= k < |cents| ==> 0 <= cents[k]
      invariant Horner(100, cents) == Horner(10000, TakenAs(num.digits)[..i])
    {
      var d := num.digits[i];
      CentsInRange(d);
      assert TakenAs(num.digits)[..i + 1] == TakenAs(num.digits)[..i] + [CentHigh(d) * 100 + CentLow(d)];
      TwoCents(cents, TakenAs(num.digits)[..i], CentHigh(d), CentLow(d));
      AppendCents(cents, CentHigh(d), CentLow(d));
      cents := cents + [CentHigh(d), CentLow(d)];
      i := i + 1;
    }
    assert TakenAs(num.digits)[..i] == TakenAs(num.digits);
    if exists k :: 0 <= k < |cents| && cents[k] >= 100 {
      return Err(DigitOutOfRange);
    }
    var magnitude := Horner(100, cents);
    r := Ok(BigDecimal(if num.sign.Positive? then magnitude else -magnitude, scale));
    if InBase(10000, num.digits) {
      TakenAsItself(num.digits);
      DigitSumIsHorner(num.digits, num.weight, -scale);
      Negation(magnitude, TenTo(-scale));
    }
  }

  lemma ZeroSum(weight: int)
    ensures DigitSum([], weight) == 0.0 && Value(BigDecimal(0, 0)) == 0.0
  {
  }

  lemma NoDigits()
    ensures Horner(100, []) == 0 && Horner(10000, []) == 0
  {
  }

  lemma AppendCents(cents: seq<int>, hi: int, lo: int)
    requires forall k :: 0 <= k < |cents| ==> 0 <= cents[k]
    requires 0 <= hi && 0 <= lo
    ensures InBase(100, cents + [hi, lo]) <==> InBase(100, cents) && hi < 100 && lo < 100
  {
    var s := cents + [hi, lo];
    assert s[|cents|] == hi && s[|cents| + 1] == lo && s[..|cents|] == cents;
    if InBase(100, s) {
      assert forall k :: 0 <= k < |cents| ==> cents[k] == s[k];
    }
  }

  lemma Negation(h: int, x: real)
    ensures (-h) as real * x == -(h as real * x)
  {
    assert (-h) as real == -(h as real);
  }

  /** An out-of-range digit can pass unnoticed: 25600 reads as 0. */
  lemma OutOfRangeDigitAccepted()
    ensures exists d: i16 :: Accepted(d) && !(0 <= d < 10000) && CentHigh(d) == 0 && CentLow(d) == 0
  {
    var d: i16 := 25600;
    assert Accepted(d) && CentHigh(d) == 0 && CentLow(d) == 0;
  }

  // ---------------------------------------------------------------- wire format

  const SIGN_POS: u16 := 0x0000
  const SIGN_NEG: u16 := 0x4000
  const SIGN_NAN: u16 := 0xC000

  function SignWord(s: Sign): u16 { if s.Positive? then SIGN_POS else SIGN_NEG }

  function I16Be(x: i16): seq<byte> { U16Be(AsU16(x)) }
  function ReadI16Be(s: seq<byte>): i16
    requires |s| >= 2
  {
    AsI16(ReadU16Be(s))
  }

  function DigitBytes(digits: seq<i16>): (s: seq<byte>)
    ensures |s| == 2 * |digits|
  {
    if digits == [] then [] else I16Be(digits[0]) + DigitBytes(digits[1..])
  }

  function Header(a: u16, b: u16, c: u16, d: u16): (s: seq<byte>)
    ensures |s| == 8
  {
    U16Be(a) + U16Be(b) + U16Be(c) + U16Be(d)
  }

  lemma ReadHeader(a: u16, b: u16, c: u16, d: u16, rest: seq<byte>)
    ensures var buf := Header(a, b, c, d) + rest;
            && ReadU16Be(buf) == a && ReadU16Be(buf[2..]) == b
            && ReadU16Be(buf[4..]) == c && ReadU16Be(buf[6..]) == d && buf[8..] == rest
  {
  }

  function WireBytes(num: PgNumeric): seq<byte>
    requires num.Number? ==> |num.digits| < 0x8000
  {
    match num
    case NotANumber => Header(0, 0, SIGN_NAN, 0)
    case Number(sign, digits, weight, scale) =>
      Header(|digits|, AsU16(weight), SignWord(sign), AsU16(scale)) + DigitBytes(digits)
  }

  function ReadDigits(s: seq<byte>, count: nat): (digits: seq<i16>)
    requires |s| >= 2 * count
    ensures |digits| == count
  {
    if count == 0 then [] else [ReadI16Be(s)] + ReadDigits(s[2..], count - 1)
  }

  /** What a buffer means to the reader; every `get_*` past the end panics. */
  function Parse(buf: seq<byte>): Result<PgNumeric> {
    if |buf| < 8 then Err(Panic)
    else
      var count, sign := ReadU16Be(buf), ReadU16Be(buf[4..]);
      if sign == SIGN_NAN then Ok(NotANumber)
      else if |buf| < 8 + 2 * count then Err(Panic)
      else if sign != SIGN_POS && sign != SIGN_NEG then Err(InvalidSign)
      else Ok(Number(if sign == SIGN_POS then Positive else Negative,
                     ReadDigits(buf[8..], count), ReadI16Be(buf[2..]), ReadI16Be(buf[6..])))
  }

  lemma {:induction false} ReadDigitBytes(digits: seq<i16>, rest: seq<byte>)
    ensures ReadDigits(DigitBytes(digits) + rest, |digits|) == digits
  {
    if digits != [] {
      var tail := DigitBytes(digits[1..]);
      assert DigitBytes(digits) + rest == I16Be(digits[0]) + (tail + rest);
      ReadU16(AsU16(digits[0]), tail + rest);
      ReadDigitBytes(digits[1..], rest);
    }
  }

  /** Every numeric the encoder can write is read back unchanged, whatever follows it. */
  lemma ParseWire(num: PgNumeric, rest: seq<byte>)
    requires num.Number? ==> |num.digits| < 0x8000
    ensures Parse(WireBytes(num) + rest) == Ok(num)
  {
    match num
    case NotANumber =>
      ReadHeader(0, 0, SIGN_NAN, 0, rest);
    case Number(sign, digits, weight, scale) =>
      var tail := DigitBytes(digits) + rest;
      assert WireBytes(num) + rest == Header(|digits|, AsU16(weight), SignWord(sign), AsU16(scale)) + tail;
      ReadHeader(|digits|, AsU16(weight), SignWord(sign), AsU16(scale), tail);
      ReadDigitBytes(digits, rest);
  }

  lemma {:induction false} DigitBytesAt(digits: seq<i16>, i: nat)
    requires i < |digits|
    ensures var s := DigitBytes(digits);
            (s[2 * i] as int * 0x100 + s[2 * i + 1] - digits[i]) % 0x1_0000 == 0
  {
    if i > 0 {
      DigitBytesAt(digits[1..], i - 1);
    }
  }

  lemma {:induction false} ReadDigitsAt(s: seq<byte>, count: nat, i: nat)
    requires |s| >= 2 * count && i < count
    ensures (s[2 * i] as int * 0x100 + s[2 * i + 1] - ReadDigits(s, count)[i]) % 0x1_0000 == 0
  {
    if i > 0 {
      ReadDigitsAt(s[2..], count - 1, i - 1);
    }
  }

  /** The wire form byte by byte, from `o` to the end: digit count, weight, sign, scale and digits as big-endian words,
      a negative number modulo 65536; the sign bytes are 0000, 4000 and C000. */
  ghost predicate Laid(s: seq<byte>, o: nat, num: PgNumeric) {
    match num
    case NotANumber => o <= |s| && s[o..] == [0, 0, 0, 0, 0xC0, 0, 0, 0]
    case Number(sign, digits, weight, scale) =>
      && |s| == o + 8 + 2 * |digits| && s[o] as int * 0x100 + s[o + 1] == |digits|
      && (s[o + 2] as int * 0x100 + s[o + 3] - weight) % 0x1_0000 == 0
      && s[o + 4] == (if sign.Positive? then 0 else 0x40) && s[o + 5] == 0
      && (s[o + 6] as int * 0x100 + s[o + 7] - scale) % 0x1_0000 == 0
      && forall i :: 0 <= i < |digits| ==>
                       (s[o + 8 + 2 * i] as int * 0x100 + s[o + 9 + 2 * i] - digits[i]) % 0x1_0000 == 0
  }

  lemma HeaderWords(a: u16, b: u16, c: u16, d: u16)
    ensures var h := Header(a, b, c, d);
            && h[0] as int * 0x100 + h[1] == a && h[2] as int * 0x100 + h[3] == b
            && h[4] as int == c / 0x100 && h[5] as int == c % 0x100 && h[6] as int * 0x100 + h[7] == d
  {
  }

  lemma WireLaid(num: PgNumeric, buf: seq<byte>)
    requires num.Number? ==> |num.digits| < 0x8000
    ensures Laid(buf + WireBytes(num), |buf|, num)
  {
    if num.NotANumber? {
      assert (buf + WireBytes(num))[|buf|..] == WireBytes(num);
    } else {
      HeaderWords(|num.digits|, AsU16(num.weight), SignWord(num.sign), AsU16(num.scale));
      TwosComplement(num.weight, 0, 0, 0);
      TwosComplement(num.scale, 0, 0, 0);
      forall i | 0 <= i < |num.digits|
        ensures var tail := DigitBytes(num.digits);
                (tail[2 * i] as int * 0x100 + tail[2 * i + 1] - num.digits[i]) % 0x1_0000 == 0
      {
        DigitBytesAt(num.digits, i);
      }
      var head := Header(|num.digits|, AsU16(num.weight), SignWord(num.sign), AsU16(num.scale));
      hide Header, DigitBytes, AsU16;
      AllLaid(num, buf, head, DigitBytes(num.digits));
    }
  }

  lemma AllLaid(num: PgNumeric, buf: seq<byte>, head: seq<byte>, tail: seq<byte>)
    requires num.Number? && |head| == 8 && |tail| == 2 * |num.digits|
    requires head[0] as int * 0x100 + head[1] == |num.digits|
    requires (head[2] as int * 0x100 + head[3] - num.weight) % 0x1_0000 == 0
    requires head[4] == (if num.sign.Positive? then 0 else 0x40) && head[5] == 0
    requires (head[6] as int * 0x100 + head[7] - num.scale) % 0x1_0000 == 0
    requires forall i :: 0 <= i < |num.digits| ==>
                           (tail[2 * i] as int * 0x100 + tail[2 * i + 1] - num.digits[i]) % 0x1_0000 == 0
    ensures Laid(buf + (head + tail), |buf|, num)
  {
    var s, o := buf + (head + tail), |buf|;
    assert forall k :: 0 <= k < 8 ==> s[o + k] == head[k];
    forall i | 0 <= i < |num.digits|
      ensures (s[o + 8 + 2 * i] as int * 0x100 + s[o + 9 + 2 * i] - num.digits[i]) % 0x1_0000 == 0
    {
      assert s[o + 8 + 2 * i] == tail[2 * i] && s[o + 9 + 2 * i] == tail[2 * i + 1];
    }
  }

  /** `PgNumeric::encode`; the length conversion panics on 32768 digits or more. */
  method Encode(num: PgNumeric, buf: seq<byte>) returns (r: Result<seq<byte>>)
    ensures r.Err? <==> num.Number? && |num.digits| >= 0x8000
    ensures r.Ok? ==> r.value == buf + WireBytes(num)
    ensures r.Err? ==> r.error == Panic
    ensures r.Ok? ==> buf <= r.value && Laid(r.value, |buf|, num)
  {
    r := EncodeWire(num, buf);
    if r.Ok? {
      hide WireBytes, Laid;
      WireLaid(num, buf);
    }
  }

  method EncodeWire(num: PgNumeric, buf: seq<byte>) returns (r: Result<seq<byte>>)
    ensures r.Err? <==> num.Number? && |num.digits| >= 0x8000
    ensures r.Ok? ==> r.value == buf + WireBytes(num)
    ensures r.Err? ==> r.error == Panic
  {
    if num.NotANumber? {
      var nan := buf + I16Be(0) + I16Be(0) + U16Be(SIGN_NAN) + I16Be(0);
      assert nan == buf + WireBytes(num);
      return Ok(nan);
    }
    if |num.digits| >= 0x8000 {
      return Err(Panic);
    }
    var out := buf + I16Be(|num.digits|) + I16Be(num.weight) + U16Be(SignWord(num.sign)) + I16Be(num.scale);
    ghost var header := out;
    assert header + DigitBytes(num.digits) == buf + WireBytes(num);
    var i := 0;
    while i < |num.digits|
      invariant i <= |num.digits|
      invariant out + DigitBytes(num.digits[i..]) == header + DigitBytes(num.digits)
    {
      assert num.digits[i..][1..] == num.digits[i + 1..];
      out := out + I16Be(num.digits[i]);
      i := i + 1;
    }
    r := Ok(out);
  }

  /** `PgNumeric::decode`, advancing a cursor. */
  method Decode(buf: seq<byte>) returns (r: Result<PgNumeric>)
    ensures r == Parse(buf)
    ensures |buf| < 8 ==> r == Err(Panic)
    ensures |buf| >= 8 && buf[4] == 0xC0 && buf[5] == 0 ==> r == Ok(NotANumber)
    ensures |buf| >= 8 && (buf[4] != 0xC0 || buf[5] != 0) ==>
              var count := buf[0] as int * 0x100 + buf[1];
              if |buf| < 8 + 2 * count then r == Err(Panic)
              else if buf[5] != 0 || (buf[4] != 0 && buf[4] != 0x40) then r == Err(InvalidSign)
              else
                && r.Ok? && r.value.Number? && (r.value.sign.Positive? <==> buf[4] == 0)
                && |r.value.digits| == count
                && (buf[2] as int * 0x100 + buf[3] - r.value.weight) % 0x1_0000 == 0
                && (buf[6] as int * 0x100 + buf[7] - r.value.scale) % 0x1_0000 == 0
                && forall i :: 0 <= i < count ==>
                                 (buf[8 + 2 * i] as int * 0x100 + buf[9 + 2 * i] - r.value.digits[i]) % 0x1_0000 == 0
  {
    r := DecodeWire(buf);
    if |buf| >= 8 && r.Ok? && r.value.Number? {
      ParseLayout(buf);
    }
  }

  lemma ParseLayout(buf: seq<byte>)
    requires |buf| >= 8 && Parse(buf).Ok? && Parse(buf).value.Number?
    ensures var num := Parse(buf).value;
            && |num.digits| == buf[0] as int * 0x100 + buf[1] && |buf| >= 8 + 2 * |num.digits|
            && forall i :: 0 <= i < |num.digits| ==>
                             (buf[8 + 2 * i] as int * 0x100 + buf[9 + 2 * i] - num.digits[i]) % 0x1_0000 == 0
  {
    var digits, tail := Parse(buf).value.digits, buf[8..];
    forall i | 0 <= i < |digits|
      ensures (buf[8 + 2 * i] as int * 0x100 + buf[9 + 2 * i] - digits[i]) % 0x1_0000 == 0
    {
      ReadDigitsAt(tail, |digits|, i);
      assert tail[2 * i] == buf[8 + 2 * i] && tail[2 * i + 1] == buf[9 + 2 * i];
    }
  }

  method DecodeWire(buf: seq<byte>) returns (r: Result<PgNumeric>)
    ensures r == Parse(buf)
  {
    if |buf| < 8 {
      return Err(Panic);
    }
    var count, weight, sign, scale := ReadU16Be(buf), ReadI16Be(buf[2..]), ReadU16Be(buf[4..]), ReadI16Be(buf[6..]);
    if sign == SIGN_NAN {
      return Ok(NotANumber);
    }
    var digits: seq<i16>, cursor := [], buf[8..];
    while |digits| < count
      invariant |digits| <= count && |cursor| == |buf| - 8 - 2 * |digits|
      invariant |buf| >= 8 + 2 * count ==>
                  digits + ReadDigits(cursor, count - |digits|) == ReadDigits(buf[8..], count)
      decreases count - |digits|
    {
      if |cursor| < 2 {
        return Err(Panic);
      }
      digits := digits + [ReadI16Be(cursor)];
      cursor := cursor[2..];
    }
    assert digits + ReadDigits(cursor, 0) == digits;
    if sign == SIGN_POS || sign == SIGN_NEG {
      r := Ok(Number(if sign == SIGN_POS then Positive else Negative, digits, weight, scale));
    } else {
      r := Err(InvalidSign);
    }
  }

  /** The whole trip. A decimal whose scale and weight fit comes back with exactly its value,
      unless its canonical form needs 32768 base-10000 digits or more. */
  method RoundTrip(d: BigDecimal) returns (r: Result<BigDecimal>)
    ensures r.Ok? ==> Value(r.value) == Value(d)
    ensures r.Err? && d.exp < 0x8000 && FitsI16(WeightOf(Weight10(d))) ==>
              forall num :: Canonical(num) && NumericValue(num) == Value(d) ==> |num.digits| >= 0x8000
  {
    hide Value, DigitSum, WeightOf;
    var num := FromBigDecimal(d);
    if num.Err? {
      return Err(num.error);
    }
    var bytes := Encode(num.value, []);
    if bytes.Err? {
      forall other | Canonical(other) && NumericValue(other) == Value(d)
        ensures |other.digits| >= 0x8000
      {
        CanonicalUnique(num.value, other);
      }
      return Err(bytes.error);
    }
    ParseWire(num.value, []);
    assert [] + WireBytes(num.value) == WireBytes(num.value) + [];
    var back := Decode(bytes.value);
    r := ToBigDecimal(back.value);
  }
}
