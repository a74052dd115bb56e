// The fixed-point decimal number: a mantissa of one of the four integer types
// together with a decimal precision (the number of digits after the point).
// The template parameters of the C++ class become the fields `t` and `prec`.
module FixNum {
  import opened CInt
  import opened FixNumUtil

  datatype FixNum = FixNum(t: IntType, prec: nat, mantissa: int)

  /** The instantiations that compile: a defined multiplier and a mantissa of type T. */
  predicate WellFormed(a: FixNum)
  {
    a.prec <= MAX_PREC && InType(a.t, a.mantissa)
  }

  /** `valid()`: strictly between the limits; maxValue is the invalid marker. */
  predicate Valid(a: FixNum)
  {
    MinValue(a.t) < a.mantissa < MaxValue(a.t)
  }

  /** The default constructor and `setInvalid()`: the mantissa `invalid` = maxValue. */
  function Invalid(t: IntType, prec: nat): (r: FixNum)
    requires prec <= MAX_PREC
    ensures WellFormed(r) && !Valid(r)
    ensures r.t == t && r.prec == prec
  {
    FixNum(t, prec, MaxValue(t))
  }

  /** The instantiations the library declares as typedefs (`ufixnum8_0` … `fixnum32_6`). */
  predicate Typedef(t: IntType, prec: nat)
  {
    match t
    case UInt8 => prec <= 2
    case Int8 => prec <= 2
    case Int16 => prec <= 4
    case Int32 => prec <= 6
  }

  /**
   * `static const T multiplier` of a declared typedef is 10^prec itself: the constant
   * fits in T, so its conversion to T keeps it, and the model's exact `Multiplier` is
   * the C constant.
   */
  lemma TypedefMultiplierFits(t: IntType, prec: nat)
    requires Typedef(t, prec)
    ensures prec <= MAX_PREC && Multiplier(prec) < MaxValue(t)
    ensures Cast(t, Multiplier(prec)) == Pow10(prec)
  {
    LimitsShape(t);
  }

  /**
   * `FixNum<T,prec>::scale(x)`: the integer x as a number of precision prec (x * multiplier
   * in T); the multiplier is exact for every typedef (`TypedefMultiplierFits`).
   */
  function FromInt(t: IntType, prec: nat, x: int): (r: FixNum)
    requires prec <= MAX_PREC && InType(t, x)
    ensures WellFormed(r) && r.t == t && r.prec == prec
    ensures InType(t, x * Pow10(prec)) ==> r.mantissa == x * Pow10(prec)
  {
    FixNum(t, prec, Cast(t, x * Multiplier(prec)))
  }

  /** The multiplier of the instantiation is representable in T (true of every library typedef). */
  predicate MultiplierFits(a: FixNum)
  {
    a.prec <= MAX_PREC && Multiplier(a.prec) <= MaxValue(a.t)
  }

  /**
   * `floor()`: the integer part rounded toward minus infinity, with maxValue for an
   * invalid mantissa and minValue for the lowest multiplier-1 mantissas above minValue.
   */
  function Floor(a: FixNum): (r: int)
    requires WellFormed(a) && MultiplierFits(a)
    ensures a.mantissa >= MaxValue(a.t) ==> r == MaxValue(a.t)
    ensures a.mantissa < MaxValue(a.t) && a.mantissa <= MinValue(a.t) + Pow10(a.prec) - 1 ==> r == MinValue(a.t)
    ensures MinValue(a.t) + Pow10(a.prec) - 1 < a.mantissa < MaxValue(a.t) ==> r == a.mantissa / Pow10(a.prec)
  {
    var m, mult := a.mantissa, Multiplier(a.prec);
    if m >= MaxValue(a.t) then MaxValue(a.t)
    else if m <= MinValue(a.t) + mult - 1 then MinValue(a.t)
    else if m >= 0 then Div(m, mult)
    else
      FloorOfNegative(m, mult);
      Div(m - mult + 1, mult)
  }

  /** C's truncating division of m - d + 1 by d rounds a negative m toward minus infinity. */
  lemma FloorOfNegative(m: int, d: int)
    requires m < 0 && d >= 1
    ensures Div(m - d + 1, d) == m / d
  {
    var q := m / d;
    DivBounds(m, d);
    var n := -(m - d + 1);
    assert n == -q * d + (d - 1 - (m - q * d));
    DivUnique(n, d, -q);
  }

  /** Dafny's division by a positive divisor is the floor of the quotient. */
  lemma DivBounds(n: int, d: int)
    requires d >= 1
    ensures (n / d) * d <= n < (n / d) * d + d
  {
  }

  lemma DivUnique(n: int, d: int, q: int)
    requires d >= 1 && q * d <= n < q * d + d
    ensures n / d == q
  {
    var k := n / d;
    DivBounds(n, d);
    if k < q {
      MulMono(k + 1, q, d);
    } else if k > q {
      MulMono(q + 1, k, d);
    }
  }

  lemma MulMono(a: int, b: int, d: int)
    requires a <= b && d >= 0
    ensures a * d <= b * d
  {
    assert b * d - a * d == (b - a) * d;
  }

  /** An integer made into a number by `scale` floors back to itself. */
  lemma FloorOfFromInt(t: IntType, prec: nat, x: int)
    requires prec <= MAX_PREC && InType(t, x) && Multiplier(prec) <= MaxValue(t)
    requires Valid(FixNum(t, prec, x * Pow10(prec)))
    requires MinValue(t) + Pow10(prec) - 1 < x * Pow10(prec)
    ensures Floor(FromInt(t, prec, x)) == x
  {
    var p := Pow10(prec);
    assert InType(t, x * p);
    DivUnique(x * p, p, x);
  }

  // ----------- Comparisons -----------

  /** The value of a at precision p >= a.prec, without saturation. */
  function Exact(a: FixNum, p: nat): int
    requires a.prec <= p
  {
    a.mantissa * Pow10(p - a.prec)
  }

  /** `scaleUp((T0)a.mantissa(), prec1, p0)`: the operand aligned to the common type and precision. */
  function Align(a: FixNum, t0: IntType, p0: nat): int
  {
    ScaleUp(t0, Cast(t0, a.mantissa), a.prec, p0)
  }

  function CommonType(a: FixNum, b: FixNum): IntType { Common(a.t, b.t) }

  function CommonPrec(a: FixNum, b: FixNum): nat
    requires WellFormed(a) && WellFormed(b)
  {
    MaxPrec(a.prec, b.prec)
  }

  /** `a == b`: false when either side is invalid. */
  function Eq(a: FixNum, b: FixNum): (r: bool)
    requires WellFormed(a) && WellFormed(b)
    ensures r ==> Valid(a) && Valid(b)
  {
    if !Valid(a) || !Valid(b) then false
    else
      var t0, p0 := CommonType(a, b), CommonPrec(a, b);
      Align(a, t0, p0) == Align(b, t0, p0)
  }

  /** `a != b`: also false when either side is invalid, so it is not the negation of `==`. */
  function Ne(a: FixNum, b: FixNum): (r: bool)
    requires WellFormed(a) && WellFormed(b)
    ensures r ==> Valid(a) && Valid(b)
  {
    if !Valid(a) || !Valid(b) then false
    else
      var t0, p0 := CommonType(a, b), CommonPrec(a, b);
      Align(a, t0, p0) != Align(b, t0, p0)
  }

  function Lt(a: FixNum, b: FixNum): (r: bool)
    requires WellFormed(a) && WellFormed(b)
    ensures r ==> Valid(a) && Valid(b)
  {
    if !Valid(a) || !Valid(b) then false
    else
      var t0, p0 := CommonType(a, b), CommonPrec(a, b);
      Align(a, t0, p0) < Align(b, t0, p0)
  }

  function Le(a: FixNum, b: FixNum): (r: bool)
    requires WellFormed(a) && WellFormed(b)
    ensures r ==> Valid(a) && Valid(b)
  {
    if !Valid(a) || !Valid(b) then false
    else
      var t0, p0 := CommonType(a, b), CommonPrec(a, b);
      Align(a, t0, p0) <= Align(b, t0, p0)
  }

  function Gt(a: FixNum, b: FixNum): (r: bool)
    requires WellFormed(a) && WellFormed(b)
    ensures r ==> Valid(a) && Valid(b)
  {
    if !Valid(a) || !Valid(b) then false
    else
      var t0, p0 := CommonType(a, b), CommonPrec(a, b);
      Align(a, t0, p0) > Align(b, t0, p0)
  }

  function Ge(a: FixNum, b: FixNum): (r: bool)
    requires WellFormed(a) && WellFormed(b)
    ensures r ==> Valid(a) && Valid(b)
  {
    if !Valid(a) || !Valid(b) then false
    else
      var t0, p0 := CommonType(a, b), CommonPrec(a, b);
      Align(a, t0, p0) >= Align(b, t0, p0)
  }

  /** Aligning a valid operand gives its exact value clamped to the common type's limits. */
  lemma AlignIsClamped(a: FixNum, t0: IntType, p0: nat)
    requires WellFormed(a) && Valid(a) && a.prec <= p0
    requires MinValue(t0) <= MinValue(a.t) && MaxValue(a.t) <= MaxValue(t0)
    requires TypeMin(t0) <= TypeMin(a.t) && TypeMax(a.t) <= TypeMax(t0)
    ensures Align(a, t0, p0) == Clamp(t0, Exact(a, p0))
    ensures a.prec == p0 ==> Align(a, t0, p0) == a.mantissa
  {
    assert Cast(t0, a.mantissa) == a.mantissa;
    ScaleUpIsClampedProduct(t0, a.mantissa, a.prec, p0);
  }

  /** Clamping one side cannot change a comparison with a value strictly inside the limits. */
  lemma ClampAgainstInterior(t: IntType, x: int, y: int)
    requires MinValue(t) < y < MaxValue(t)
    ensures (Clamp(t, x) < y) == (x < y)
    ensures (Clamp(t, x) == y) == (x == y)
    ensures (Clamp(t, x) > y) == (x > y)
  {
  }

  /**
   * For valid operands all six comparisons are exact: they compare the two values
   * at the common precision, whatever saturation the alignment performed. One of the
   * two operands is never rescaled, and it lies strictly inside the limits.
   */
  lemma CompareIsExact(a: FixNum, b: FixNum)
    requires WellFormed(a) && WellFormed(b) && Valid(a) && Valid(b)
    ensures var p0 := CommonPrec(a, b);
      && (Eq(a, b) <==> Exact(a, p0) == Exact(b, p0))
      && (Ne(a, b) <==> Exact(a, p0) != Exact(b, p0))
      && (Lt(a, b) <==> Exact(a, p0) < Exact(b, p0))
      && (Le(a, b) <==> Exact(a, p0) <= Exact(b, p0))
      && (Gt(a, b) <==> Exact(a, p0) > Exact(b, p0))
      && (Ge(a, b) <==> Exact(a, p0) >= Exact(b, p0))
  {
    var t0, p0 := CommonType(a, b), CommonPrec(a, b);
    AlignIsClamped(a, t0, p0);
    AlignIsClamped(b, t0, p0);
    if a.prec == p0 {
      assert Exact(a, p0) == a.mantissa;
      ClampAgainstInterior(t0, Exact(b, p0), a.mantissa);
    } else {
      assert b.prec == p0;
      assert Exact(b, p0) == b.mantissa;
      ClampAgainstInterior(t0, Exact(a, p0), b.mantissa);
    }
  }

  // ----------- Arithmetic -----------

  function Sum(a: FixNum, b: FixNum, subtract: bool): (r: FixNum)
    requires WellFormed(a) && WellFormed(b)
  {
    var t0, p0 := CommonType(a, b), CommonPrec(a, b);
    if !Valid(a) || !Valid(b) then Invalid(t0, p0)
    else
      var x, y := Align(a, t0, p0), Align(b, t0, p0);
      FixNum(t0, p0, Cast(t0, if subtract then x - y else x + y))
  }

  /** `a + b`: aligned to the common type and precision, wrapping in that type on overflow. */
  function Add(a: FixNum, b: FixNum): (r: FixNum)
    requires WellFormed(a) && WellFormed(b)
    ensures WellFormed(r) && r.t == Common(a.t, b.t) && r.prec == MaxPrec(a.prec, b.prec)
    ensures !Valid(a) || !Valid(b) ==> r == Invalid(r.t, r.prec)
  {
    Sum(a, b, false)
  }

  /** `a - b`. */
  function Sub(a: FixNum, b: FixNum): (r: FixNum)
    requires WellFormed(a) && WellFormed(b)
    ensures WellFormed(r) && r.t == Common(a.t, b.t) && r.prec == MaxPrec(a.prec, b.prec)
    ensures !Valid(a) || !Valid(b) ==> r == Invalid(r.t, r.prec)
  {
    Sum(a, b, true)
  }

  /**
   * When neither alignment saturates and the exact result fits the common type,
   * `+` and `-` compute the exact sum and difference at the common precision.
   */
  lemma AddSubExact(a: FixNum, b: FixNum)
    requires WellFormed(a) && WellFormed(b) && Valid(a) && Valid(b)
    requires var t0, p0 := Common(a.t, b.t), MaxPrec(a.prec, b.prec);
      MinValue(t0) <= Exact(a, p0) <= MaxValue(t0) && MinValue(t0) <= Exact(b, p0) <= MaxValue(t0)
    ensures var t0, p0 := Common(a.t, b.t), MaxPrec(a.prec, b.prec);
      && (InType(t0, Exact(a, p0) + Exact(b, p0)) ==> Add(a, b).mantissa == Exact(a, p0) + Exact(b, p0))
      && (InType(t0, Exact(a, p0) - Exact(b, p0)) ==> Sub(a, b).mantissa == Exact(a, p0) - Exact(b, p0))
  {
    var t0, p0 := Common(a.t, b.t), MaxPrec(a.prec, b.prec);
    AlignIsClamped(a, t0, p0);
    AlignIsClamped(b, t0, p0);
  }

  /** `a * b`: the product of the mantissas in the common type, with precision prec1 + prec2. */
  function Mul(a: FixNum, b: FixNum): (r: FixNum)
    requires WellFormed(a) && WellFormed(b) && a.prec + b.prec <= MAX_PREC
    ensures WellFormed(r) && r.t == Common(a.t, b.t) && r.prec == a.prec + b.prec
    ensures !Valid(a) || !Valid(b) ==> r == Invalid(r.t, r.prec)
    ensures Valid(a) && Valid(b) && InType(r.t, a.mantissa * b.mantissa) ==> r.mantissa == a.mantissa * b.mantissa
  {
    var t0, p0 := Common(a.t, b.t), a.prec + b.prec;
    if !Valid(a) || !Valid(b) then Invalid(t0, p0)
    else FixNum(t0, p0, Cast(t0, Cast(t0, a.mantissa) * Cast(t0, b.mantissa)))
  }

  /** The divisor of `a / b` is non-zero whenever the division is actually carried out. */
  predicate DivDefined(a: FixNum, b: FixNum)
  {
    Valid(a) && Valid(b) ==> b.mantissa != 0
  }

  /**
   * `a / b`: the dividend is raised to precision p0 + prec2 (saturating) and divided
   * by the divisor's mantissa with truncation, giving precision p0 = max(prec1, prec2).
   */
  function Quot(a: FixNum, b: FixNum): (r: FixNum)
    requires WellFormed(a) && WellFormed(b) && DivDefined(a, b)
    ensures WellFormed(r) && r.t == Common(a.t, b.t) && r.prec == MaxPrec(a.prec, b.prec)
    ensures !Valid(a) || !Valid(b) ==> r == Invalid(r.t, r.prec)
  {
    var t0, p0 := Common(a.t, b.t), MaxPrec(a.prec, b.prec);
    if !Valid(a) || !Valid(b) then Invalid(t0, p0)
    else
      var n := Align(a, t0, p0 + b.prec);
      FixNum(t0, p0, Cast(t0, Div(n, Cast(t0, b.mantissa))))
  }

  /**
   * Without saturation of the dividend, the quotient's mantissa q is a's value at
   * precision p0 + prec2 divided by b's mantissa, truncated toward zero:
   * |q * b| <= |dividend| < (|q| + 1) * |b|.
   */
  lemma QuotExact(a: FixNum, b: FixNum)
    requires WellFormed(a) && WellFormed(b) && Valid(a) && Valid(b) && b.mantissa != 0
    requires var t0, p0 := Common(a.t, b.t), MaxPrec(a.prec, b.prec);
      MinValue(t0) <= Exact(a, p0 + b.prec) <= MaxValue(t0)
    ensures var n := Exact(a, MaxPrec(a.prec, b.prec) + b.prec);
      var q := Quot(a, b).mantissa;
      Abs(q) * Abs(b.mantissa) <= Abs(n) < (Abs(q) + 1) * Abs(b.mantissa)
  {
    QuotIsDiv(a, b);
  }

  /** Without saturation of the dividend, the quotient's mantissa is the truncated quotient itself. */
  lemma QuotIsDiv(a: FixNum, b: FixNum)
    requires WellFormed(a) && WellFormed(b) && Valid(a) && Valid(b) && b.mantissa != 0
    requires var t0, p0 := Common(a.t, b.t), MaxPrec(a.prec, b.prec);
      MinValue(t0) <= Exact(a, p0 + b.prec) <= MaxValue(t0)
    ensures Quot(a, b).mantissa == Div(Exact(a, MaxPrec(a.prec, b.prec) + b.prec), b.mantissa)
  {
    QuotMantissa(a, b);
    AlignedQuotient(a, Common(a.t, b.t), MaxPrec(a.prec, b.prec) + b.prec, b.mantissa);
  }

  /** Dividing an aligned operand that did not saturate needs no cast back into the type. */
  lemma AlignedQuotient(a: FixNum, t0: IntType, p: nat, d: int)
    requires WellFormed(a) && Valid(a) && a.prec <= p
    requires MinValue(t0) <= MinValue(a.t) && MaxValue(a.t) <= MaxValue(t0)
    requires TypeMin(t0) <= TypeMin(a.t) && TypeMax(a.t) <= TypeMax(t0)
    requires MinValue(t0) <= Exact(a, p) <= MaxValue(t0) && d != 0 && InType(t0, d)
    ensures Cast(t0, Div(Align(a, t0, p), d)) == Div(Exact(a, p), d)
  {
    AlignIsClamped(a, t0, p);
    QuotientFits(t0, Exact(a, p), d);
  }

  /** The mantissa of a quotient of valid operands, with the divisor's cast removed. */
  lemma QuotMantissa(a: FixNum, b: FixNum)
    requires WellFormed(a) && WellFormed(b) && Valid(a) && Valid(b) && b.mantissa != 0
    ensures var t0, p0 := Common(a.t, b.t), MaxPrec(a.prec, b.prec);
      Quot(a, b).mantissa == Cast(t0, Div(Align(a, t0, p0 + b.prec), b.mantissa))
  {
    assert Cast(Common(a.t, b.t), b.mantissa) == b.mantissa;
  }

  /** A truncated quotient of a value within the limits of t stays within them. */
  lemma QuotientFits(t: IntType, n: int, d: int)
    requires d != 0 && MinValue(t) <= n <= MaxValue(t) && InType(t, d)
    ensures InType(t, Div(n, d))
  {
    LimitsShape(t);
    QuotientSmaller(n, d);
  }

  lemma QuotientSmaller(n: int, d: int)
    requires d != 0
    ensures Abs(Div(n, d)) <= Abs(n)
  {
    var q := Div(n, d);
    MulMono(1, Abs(d), Abs(q));
    assert Abs(q) * 1 <= Abs(d) * Abs(q);
  }

  // ----------- Conversion -----------

  /** `operator FixNum<T2,prec2>()`: `convert` of the mantissa, applied to invalid numbers too. */
  function ConvertTo(a: FixNum, t2: IntType, prec2: nat): (r: FixNum)
    requires WellFormed(a) && prec2 <= MAX_PREC
    ensures WellFormed(r) && r.t == t2 && r.prec == prec2
  {
    FixNum(t2, prec2, Convert(a.t, t2, a.mantissa, a.prec, prec2))
  }

  /** Converting an exactly representable number to a higher precision and back restores it. */
  lemma ConvertToRoundTrip(a: FixNum, t2: IntType, prec2: nat)
    requires WellFormed(a) && a.prec <= prec2 <= MAX_PREC
    requires MinValue(a.t) <= a.mantissa <= MaxValue(a.t)
    requires MinValue(t2) <= Exact(a, prec2) <= MaxValue(t2)
    ensures ConvertTo(ConvertTo(a, t2, prec2), a.t, a.prec) == a
  {
    ConvertRoundTrip(a.t, t2, a.mantissa, a.prec, prec2);
  }

  /** Conversion does not keep the invalid marker: an invalid int16 becomes a valid int32. */
  lemma WideningForgetsInvalid()
    ensures !Valid(Invalid(Int16, 1)) && Valid(ConvertTo(Invalid(Int16, 1), Int32, 1))
  {
    assert Convert(Int16, Int32, 0x7fff, 1, 1) == 0x7fff;
  }
}
