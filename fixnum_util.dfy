// The compile-time tables and the saturating rescaling helpers that every
// fixed-point operation goes through: decimal multipliers, per-type limits,
// the common type of two operand types, the larger of two precisions,
// narrowing, and rescaling by powers of ten.
module FixNumUtil {
  import opened CInt

  /** The four mantissa types the library is instantiated with. */
  datatype IntType = UInt8 | Int8 | Int16 | Int32

  /** The range of the C type itself. */
  function TypeMin(t: IntType): int
  {
    match t
    case UInt8 => 0
    case Int8 => -0x80
    case Int16 => -0x8000
    case Int32 => -0x8000_0000
  }

  function TypeMax(t: IntType): int
  {
    match t
    case UInt8 => 0xff
    case Int8 => 0x7f
    case Int16 => 0x7fff
    case Int32 => 0x7fff_ffff
  }

  predicate InType(t: IntType, x: int)
  {
    TypeMin(t) <= x <= TypeMax(t)
  }

  /** `(T)x`: conversion to the C type, wrapping modulo its width. */
  function Cast(t: IntType, x: int): (r: int)
    ensures InType(t, r)
    ensures InType(t, x) ==> r == x
  {
    match t
    case UInt8 => ToUInt8(x)
    case Int8 => ToInt8(x)
    case Int16 => ToInt16(x)
    case Int32 => ToInt32(x)
  }

  /** `Limits<T>::minValue`. The signed limits leave out the most negative value. */
  function MinValue(t: IntType): int
  {
    match t
    case UInt8 => 0
    case Int8 => -0x7f
    case Int16 => -0x7fff
    case Int32 => -0x7fff_ffff
  }

  /** `Limits<T>::maxValue`; a mantissa equal to it marks an invalid number. */
  function MaxValue(t: IntType): int
  {
    match t
    case UInt8 => 0xff
    case Int8 => 0x7f
    case Int16 => 0x7fff
    case Int32 => 0x7fff_ffff
  }

  /** `Limits<T>::bufSize`: room for the widest formatted value plus NUL. */
  function BufSize(t: IntType): nat
  {
    match t
    case UInt8 => 6
    case Int8 => 6
    case Int16 => 8
    case Int32 => 13
  }

  /** Signed limits are symmetric, uint8 spans its whole type, and the limits lie inside the C type. */
  lemma LimitsShape(t: IntType)
    ensures t != UInt8 ==> MinValue(t) == -MaxValue(t)
    ensures t == UInt8 ==> MinValue(t) == 0 && MaxValue(t) == 255
    ensures TypeMin(t) <= MinValue(t) < 0 < MaxValue(t) == TypeMax(t) || (t == UInt8 && MinValue(t) == TypeMin(t))
  {
  }

  const MAX_PREC: nat := 6

  /** `Multiplier<prec>::multiplier`. */
  function Multiplier(prec: nat): (r: int)
    requires prec <= MAX_PREC
    ensures r == Pow10(prec)
  {
    match prec
    case 0 => 1
    case 1 => 10
    case 2 => 100
    case 3 => 1000
    case 4 => 10000
    case 5 => 100000
    case 6 => 1000000
  }

  /** `Common<T1,T2>::type`: the type both operands are converted to. */
  function Common(t1: IntType, t2: IntType): (t0: IntType)
    ensures TypeMin(t0) <= TypeMin(t1) && TypeMin(t0) <= TypeMin(t2)
    ensures TypeMax(t0) >= TypeMax(t1) && TypeMax(t0) >= TypeMax(t2)
    ensures MinValue(t0) <= MinValue(t1) && MinValue(t0) <= MinValue(t2)
    ensures MaxValue(t0) >= MaxValue(t1) && MaxValue(t0) >= MaxValue(t2)
  {
    match (t1, t2)
    case (UInt8, UInt8) => UInt8
    case (UInt8, Int8) => Int16
    case (UInt8, Int16) => Int16
    case (UInt8, Int32) => Int32
    case (Int8, UInt8) => Int16
    case (Int8, Int8) => Int8
    case (Int8, Int16) => Int16
    case (Int8, Int32) => Int32
    case (Int16, UInt8) => Int16
    case (Int16, Int8) => Int16
    case (Int16, Int16) => Int16
    case (Int16, Int32) => Int32
    case (Int32, _) => Int32
  }

  /** The table is symmetric: the common type does not depend on the operand order. */
  lemma CommonSymmetric(t1: IntType, t2: IntType)
    ensures Common(t1, t2) == Common(t2, t1)
  {
  }

  /** The `Max<prec1,prec2>` specialisations, row by row. */
  const MAX_TABLE: seq<seq<nat>> := [
    [0, 1, 2, 3, 4, 5, 6],
    [1, 1, 2, 3, 4, 5, 6],
    [2, 2, 2, 3, 4, 5, 6],
    [3, 3, 3, 3, 4, 5, 6],
    [4, 4, 4, 4, 4, 5, 6],
    [5, 5, 5, 5, 5, 5, 6],
    [6, 6, 6, 6, 6, 6, 6]
  ]

  /** `Max<prec1,prec2>::max`: a lookup in the 49-entry table, which is the larger precision. */
  function MaxPrec(prec1: nat, prec2: nat): (r: nat)
    requires prec1 <= MAX_PREC && prec2 <= MAX_PREC
    ensures r == if prec1 >= prec2 then prec1 else prec2
  {
    MAX_TABLE[prec1][prec2]
  }

  /** `narrow<T1,T2>(x)`: x itself when it fits the C type T2, else the limit on x's side. */
  function Narrow(t2: IntType, x: int): (r: int)
    ensures InType(t2, x) ==> r == x
    ensures !InType(t2, x) ==> r == (if x < 0 then MinValue(t2) else MaxValue(t2))
    ensures InType(t2, r)
  {
    var x2 := Cast(t2, x);
    if x2 != x then (if x < 0 then MinValue(t2) else MaxValue(t2)) else x2
  }

  /** Limits<T>::maxValue / 10 and minValue / 10 as C computes them. */
  function UpperStep(t: IntType): int { Div(MaxValue(t), 10) }
  function LowerStep(t: IntType): int { Div(MinValue(t), 10) }

  /** One pass of the `scaleUp` loop per precision step: saturate or multiply by ten. */
  function ScaleUp(t: IntType, x: int, prec1: nat, prec2: nat): (r: int)
    ensures prec1 < prec2 || MinValue(t) <= x <= MaxValue(t) ==> MinValue(t) <= r <= MaxValue(t)
    ensures prec1 >= prec2 ==> r == x
    decreases prec2 - prec1
  {
    if prec1 >= prec2 then x
    else if x > UpperStep(t) then MaxValue(t)
    else if x < LowerStep(t) then MinValue(t)
    else ScaleUp(t, x * 10, prec1 + 1, prec2)
  }

  function Clamp(t: IntType, x: int): (r: int)
  {
    if x > MaxValue(t) then MaxValue(t) else if x < MinValue(t) then MinValue(t) else x
  }

  /**
   * Closed form of `scaleUp`: for a mantissa within the limits, the result is the exact
   * product by 10^(prec2-prec1), clamped to [minValue, maxValue].
   */
  lemma {:induction false} ScaleUpIsClampedProduct(t: IntType, x: int, prec1: nat, prec2: nat)
    requires MinValue(t) <= x <= MaxValue(t)
    requires prec1 <= prec2
    ensures ScaleUp(t, x, prec1, prec2) == Clamp(t, x * Pow10(prec2 - prec1))
    decreases prec2 - prec1
  {
    if prec1 < prec2 {
      var k := prec2 - prec1;
      var p := Pow10(k - 1);
      var y := x * 10;
      StepBounds(t, x);
      TimesTen(x, p);
      assert x * Pow10(k) == y * p;
      if x > UpperStep(t) {
        ProductGrows(y, p);
      } else if x < LowerStep(t) {
        ProductShrinks(y, p);
      } else {
        ScaleUpIsClampedProduct(t, y, prec1 + 1, prec2);
      }
    }
  }

  /** What the two saturation tests of `scaleUp` guarantee about x * 10. */
  lemma StepBounds(t: IntType, x: int)
    ensures x > UpperStep(t) ==> x * 10 > MaxValue(t)
    ensures x < LowerStep(t) ==> x * 10 < MinValue(t)
    ensures LowerStep(t) <= x <= UpperStep(t) ==> MinValue(t) <= x * 10 <= MaxValue(t)
  {
    match t
    case UInt8 =>
    case Int8 =>
    case Int16 =>
    case Int32 =>
  }

  lemma TimesTen(x: int, p: int)
    ensures x * (10 * p) == (x * 10) * p
  {
  }

  lemma ProductGrows(y: int, m: int)
    requires y > 0 && m >= 1
    ensures y * m >= y
  {
  }

  lemma ProductShrinks(y: int, m: int)
    requires y < 0 && m >= 1
    ensures y * m <= y
  {
  }

  /** One pass of the `scaleDown` loop: divide by ten, rounding half away from zero. */
  function RoundDiv10(x: int): int
  {
    var m := Rem(x, 10);
    var q := Div(x, 10);
    if m >= 5 then q + 1 else if m <= -5 then q - 1 else q
  }

  /** `RoundDiv10` is the integer nearest to x/10, ties going away from zero. */
  lemma RoundDiv10Nearest(x: int)
    ensures -5 <= 10 * RoundDiv10(x) - x <= 5
    ensures 10 * RoundDiv10(x) - x == 5 ==> x > 0
    ensures 10 * RoundDiv10(x) - x == -5 ==> x < 0
    ensures Abs(RoundDiv10(x)) <= Abs(x)
    ensures x >= 0 ==> RoundDiv10(x) >= 0
  {
  }

  /** `scaleDown`: one rounding division by ten per precision step. */
  function ScaleDown(x: int, prec1: nat, prec2: nat): (r: int)
    ensures Abs(r) <= Abs(x)
    ensures x >= 0 ==> r >= 0
    decreases prec1 - prec2
  {
    if prec1 <= prec2 then x
    else
      RoundDiv10Nearest(x);
      ScaleDown(RoundDiv10(x), prec1 - 1, prec2)
  }

  /** `scale`: dispatch on the direction of the precision change. */
  function Scale(t: IntType, x: int, prec1: nat, prec2: nat): int
  {
    if prec2 > prec1 then ScaleUp(t, x, prec1, prec2)
    else if prec2 < prec1 then ScaleDown(x, prec1, prec2)
    else x
  }

  /** Scaling down undoes an exact scaling up. */
  lemma {:induction false} ScaleDownOfProduct(y: int, k: nat, prec2: nat)
    ensures ScaleDown(y * Pow10(k), prec2 + k, prec2) == y
    decreases k
  {
    if k > 0 {
      assert y * Pow10(k) == (y * Pow10(k - 1)) * 10;
      RoundDiv10OfTen(y * Pow10(k - 1));
      ScaleDownOfProduct(y, k - 1, prec2);
    }
  }

  lemma RoundDiv10OfTen(y: int)
    ensures RoundDiv10(y * 10) == y
  {
    RoundDiv10Nearest(y * 10);
  }

  /**
   * Raising the precision and lowering it back returns the original mantissa,
   * unless raising it saturated.
   */
  lemma ScaleRoundTrip(t: IntType, x: int, prec1: nat, prec2: nat)
    requires prec1 <= prec2
    requires MinValue(t) <= x * Pow10(prec2 - prec1) <= MaxValue(t)
    requires MinValue(t) <= x <= MaxValue(t)
    ensures Scale(t, Scale(t, x, prec1, prec2), prec2, prec1) == x
  {
    ScaleUpIsClampedProduct(t, x, prec1, prec2);
    ScaleDownOfProduct(x, prec2 - prec1, prec1);
  }

  /** `convert<T1,T2>(x, prec1, prec2)`: rescale in the common type, then narrow to T2. */
  function Convert(t1: IntType, t2: IntType, x: int, prec1: nat, prec2: nat): (r: int)
    requires InType(t1, x)
    ensures InType(t2, r)
  {
    var t0 := Common(t1, t2);
    Narrow(t2, Scale(t0, Cast(t0, x), prec1, prec2))
  }

  /**
   * Converting to another type without changing the precision keeps every value
   * the target type can hold and saturates the rest.
   */
  lemma ConvertSamePrecision(t1: IntType, t2: IntType, x: int, prec: nat)
    requires InType(t1, x)
    ensures InType(t2, x) ==> Convert(t1, t2, x, prec, prec) == x
    ensures !InType(t2, x) ==> Convert(t1, t2, x, prec, prec) == if x < 0 then MinValue(t2) else MaxValue(t2)
  {
  }

  /**
   * Raising the precision exactly and converting back to the original type and
   * precision gives the original mantissa.
   */
  lemma ConvertRoundTrip(t1: IntType, t2: IntType, x: int, prec1: nat, prec2: nat)
    requires prec1 <= prec2
    requires MinValue(t1) <= x <= MaxValue(t1)
    requires MinValue(t2) <= x * Pow10(prec2 - prec1) <= MaxValue(t2)
    ensures Convert(t2, t1, Convert(t1, t2, x, prec1, prec2), prec2, prec1) == x
  {
    ConvertUpExact(t1, t2, x, prec1, prec2);
    ConvertDownExact(t1, t2, x, prec1, prec2);
  }

  /** Raising the precision of a value whose product fits is exact. */
  lemma ConvertUpExact(t1: IntType, t2: IntType, x: int, prec1: nat, prec2: nat)
    requires prec1 <= prec2
    requires MinValue(t1) <= x <= MaxValue(t1)
    requires MinValue(t2) <= x * Pow10(prec2 - prec1) <= MaxValue(t2)
    ensures Convert(t1, t2, x, prec1, prec2) == x * Pow10(prec2 - prec1)
  {
    var t0 := Common(t1, t2);
    LimitsShape(t1);
    LimitsShape(t2);
    assert Cast(t0, x) == x;
    if prec1 == prec2 {
      assert Pow10(0) == 1;
    } else {
      ScaleUpIsClampedProduct(t0, x, prec1, prec2);
    }
  }

  /** Lowering the precision of such a product back gives the original value. */
  lemma ConvertDownExact(t1: IntType, t2: IntType, x: int, prec1: nat, prec2: nat)
    requires prec1 <= prec2
    requires MinValue(t1) <= x <= MaxValue(t1)
    requires MinValue(t2) <= x * Pow10(prec2 - prec1) <= MaxValue(t2)
    ensures Convert(t2, t1, x * Pow10(prec2 - prec1), prec2, prec1) == x
  {
    var t0 := Common(t1, t2);
    CommonSymmetric(t1, t2);
    LimitsShape(t1);
    LimitsShape(t2);
    var y := x * Pow10(prec2 - prec1);
    assert Cast(t0, y) == y;
    if prec1 == prec2 {
      assert Pow10(0) == 1;
    } else {
      ScaleDownOfProduct(x, prec2 - prec1, prec1);
    }
  }
}
