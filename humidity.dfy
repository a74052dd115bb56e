// `waterVaporPressure(temp, rh)`: the partial pressure of water vapour, in
// millibars as a fixnum32_3, at temperature `temp` (degrees Celsius, fixnum16_2)
// and relative humidity `rh` (percent, fixnum16_1). The saturation pressure is
// interpolated linearly in a table with one entry per whole degree from -40 to
// +40, and scaled by the relative humidity, clamped to [0, 100].
//
// As written, the interpolation weights are swapped (the entry of floor(temp)
// is weighted by the fractional part, the entry above by its complement), and
// the product with `rh` is formed at precision 6 in 32 bits, which wraps for
// ordinary inputs. `WaterVaporPressure` follows the code; the corrected
// `WaterVaporPressureIntended` weights the entries the other way round and
// brings the interpolated pressure to precision 3 before multiplying.
module Humidity {
  import opened CInt
  import opened FixNumUtil
  import opened F = FixNum

  const MIN_T: int := -40
  const MAX_T: int := 40

  /**
   * Saturation pressure over water in microbars (units of 0.1 Pa) at -40, -39, ..., +40
   * degrees, written as three runs of 27 degrees each.
   */
  const WVP_COLD: seq<int> := [
    189, 210, 232, 257, 284, 314, 346, 382, 420, 463,
    509, 559, 613, 673, 737, 807, 883, 965, 1054, 1150,
    1254, 1366, 1487, 1618, 1759, 1919, 2075]
  const WVP_MILD: seq<int> := [
    2251, 2440, 2644, 2862, 3097, 3348, 3617, 3906, 4214, 4544,
    4897, 5275, 5677, 6107, 6565, 7054, 7574, 8128, 8718, 9345,
    10012, 10720, 11472, 12271, 13118, 14015, 14967]
  const WVP_WARM: seq<int> := [
    15975, 17042, 18171, 19365, 20628, 21962, 23371, 24858, 26428, 28083,
    29829, 31668, 33606, 35646, 37793, 40052, 42427, 44924, 47548, 50303,
    53196, 56233, 59418, 62758, 66260, 69930, 73773]
  const WVP: seq<int> := WVP_COLD + WVP_MILD + WVP_WARM

  /** Each run of 27 entries is positive, at most 73773 and rising. */
  predicate RunShaped(run: seq<int>)
  {
    |run| == 27 && forall i :: 0 <= i < 27 ==> 0 < run[i] <= 73773 && (i < 26 ==> run[i] < run[i + 1])
  }

  lemma ColdShaped() ensures RunShaped(WVP_COLD) {}
  lemma MildShaped() ensures RunShaped(WVP_MILD) {}
  lemma WarmShaped() ensures RunShaped(WVP_WARM) {}

  /** The table has one entry per whole degree of [-40, 40], each positive, at most 73773 and below the next. */
  lemma TableShape()
    ensures |WVP| == MAX_T - MIN_T + 1
    ensures forall i :: 0 <= i < |WVP| ==> 0 < WVP[i] <= 73773
    ensures forall i :: 0 <= i < |WVP| - 1 ==> WVP[i] < WVP[i + 1]
  {
    ColdShaped();
    MildShaped();
    WarmShaped();
    assert WVP_COLD[26] < WVP_MILD[0] && WVP_MILD[26] < WVP_WARM[0];
  }

  /** The saturation pressure rises strictly with the temperature. */
  lemma {:induction false} TableIncreasing(i: int, j: int)
    requires 0 <= i < j < |WVP|
    ensures WVP[i] < WVP[j]
    decreases j - i
  {
    TableShape();
    if i + 1 < j {
      TableIncreasing(i + 1, j);
    }
  }

  /** The argument types of the declaration: fixnum16_2 degrees and fixnum16_1 percent. */
  predicate IsTemp(a: FixNum) { a.t == Int16 && a.prec == 2 && InType(Int16, a.mantissa) }
  predicate IsRh(a: FixNum) { a.t == Int16 && a.prec == 1 && InType(Int16, a.mantissa) }

  /** The temperatures the table covers: MIN_T <= floor(temp) < MAX_T. */
  predicate Covered(temp: FixNum)
    requires IsTemp(temp)
  {
    MIN_T <= Floor(temp) < MAX_T
  }

  /** `if (rh > 100) rh = fixnum16_0(100); if (rh < 0) rh = fixnum16_0(0);` */
  function ClampRh(rh: FixNum): (r: FixNum)
    requires IsRh(rh)
    ensures IsRh(r)
  {
    var hundred, zero := FixNum(Int16, 0, 100), FixNum(Int16, 0, 0);
    var r1 := if Gt(rh, hundred) then ConvertTo(hundred, Int16, 1) else rh;
    if Lt(r1, zero) then ConvertTo(zero, Int16, 1) else r1
  }

  /** The comparisons with the integers 100 and 0 are exact: a valid rh is clamped to [0.0, 100.0]. */
  lemma ClampRhIsClamp(rh: FixNum)
    requires IsRh(rh) && Valid(rh)
    ensures var r := ClampRh(rh);
      && IsRh(r) && Valid(r)
      && r.mantissa == (if rh.mantissa > 1000 then 1000 else if rh.mantissa < 0 then 0 else rh.mantissa)
  {
    var hundred, zero := FixNum(Int16, 0, 100), FixNum(Int16, 0, 0);
    CompareIsExact(rh, hundred);
    assert Exact(hundred, 1) == 1000 && Exact(rh, 1) == rh.mantissa;
    ConvertUpExact(Int16, Int16, 100, 0, 1);
    ConvertUpExact(Int16, Int16, 0, 0, 1);
    var r1 := if Gt(rh, hundred) then ConvertTo(hundred, Int16, 1) else rh;
    CompareIsExact(r1, zero);
    assert Exact(zero, 1) == 0 && Exact(r1, 1) == r1.mantissa;
  }

  /** `(wvp_t)pgm_read_dword(WVP + i)`: a table entry taken as the mantissa of a fixnum32_3. */
  function Entry(i: int): (r: FixNum)
    requires 0 <= i < |WVP|
    ensures WellFormed(r) && Valid(r) && r.t == Int32 && r.prec == 3 && r.mantissa == WVP[i]
  {
    TableShape();
    FixNum(Int32, 3, WVP[i])
  }

  /** `t0 = temp - wvp_temp_t::scale(t)`: what is left of temp above the whole degree t. */
  function Fraction(temp: FixNum, t: int): (r: FixNum)
    requires IsTemp(temp) && MIN_T <= t < MAX_T
    ensures IsTemp(r)
  {
    Sub(temp, FromInt(Int16, 2, t))
  }

  /** `t1 = 1 - t0`. */
  function Complement(t0: FixNum): (r: FixNum)
    requires IsTemp(t0)
    ensures IsTemp(r)
  {
    Sub(FixNum(Int16, 0, 1), t0)
  }

  /**
   * For a covered temperature, floor(temp) is the whole degree t with
   * 100 t <= temp < 100 (t + 1) in hundredths, t0 its fractional part f in
   * [0, 99] hundredths and t1 = 100 - f.
   */
  lemma FractionExact(temp: FixNum)
    requires IsTemp(temp) && Valid(temp) && Covered(temp)
    ensures 0 <= Hundredths(temp) < 100
    ensures Valid(Fraction(temp, Floor(temp))) && Fraction(temp, Floor(temp)).mantissa == Hundredths(temp)
    ensures Valid(Complement(Fraction(temp, Floor(temp))))
    ensures Complement(Fraction(temp, Floor(temp))).mantissa == 100 - Hundredths(temp)
  {
    var m, t := temp.mantissa, Floor(temp);
    assert m > MinValue(Int16) + 99;
    assert t == m / 100;
    assert FromInt(Int16, 2, t).mantissa == 100 * t;
  }

  /** `p0 * t0 + p1 * t1` as written: the entry of floor(temp) weighted by t0, the entry above by t1. */
  function SumAsWritten(temp: FixNum): (r: FixNum)
    requires IsTemp(temp) && Covered(temp)
    ensures WellFormed(r) && r.t == Int32 && r.prec == 5
  {
    var t := Floor(temp);
    var t0 := Fraction(temp, t);
    Add(Mul(Entry(t - MIN_T), t0), Mul(Entry(t - MIN_T + 1), Complement(t0)))
  }

  /** `p1 * t0 + p0 * t1`: the weights the other way round, the interpolation between the two entries. */
  function SumIntended(temp: FixNum): (r: FixNum)
    requires IsTemp(temp) && Covered(temp)
    ensures WellFormed(r) && r.t == Int32 && r.prec == 5
  {
    var t := Floor(temp);
    var t0 := Fraction(temp, t);
    Add(Mul(Entry(t - MIN_T + 1), t0), Mul(Entry(t - MIN_T), Complement(t0)))
  }

  /** `(...) * rh / 100`, converted to `wvp_t` on return. */
  function Scaled(num: FixNum, h: FixNum): (r: FixNum)
    requires WellFormed(num) && WellFormed(h) && num.prec + h.prec <= MAX_PREC
    ensures WellFormed(r) && r.t == Int32 && r.prec == 3
  {
    ConvertTo(Quot(Mul(num, h), FixNum(Int16, 0, 100)), Int32, 3)
  }

  /**
   * `waterVaporPressure` as written: invalid for an invalid argument or a temperature
   * outside the table; otherwise the table entries p0, p1 of floor(temp) and the
   * degree above, weighted by t0 and t1, times the clamped rh, over 100.
   */
  function WaterVaporPressure(temp: FixNum, rh: FixNum): (r: FixNum)
    requires IsTemp(temp) && IsRh(rh)
    ensures WellFormed(r) && r.t == Int32 && r.prec == 3
    ensures !Valid(temp) || !Valid(rh) || !Covered(temp) ==> r == Invalid(Int32, 3)
  {
    if !Valid(temp) || !Valid(rh) then Invalid(Int32, 3)
    else if !Covered(temp) then Invalid(Int32, 3)
    else Scaled(SumAsWritten(temp), ClampRh(rh))
  }

  /** The saturation pressure at temp as `wvp_t`: the interpolation between the entries around it. */
  function Saturation(temp: FixNum): (r: FixNum)
    requires IsTemp(temp) && Covered(temp)
    ensures WellFormed(r) && r.t == Int32 && r.prec == 3
  {
    ConvertTo(SumIntended(temp), Int32, 3)
  }

  /**
   * `waterVaporPressure` as evidently intended: the entry of floor(temp) weighted by
   * 1 - t0 and the entry above by t0, the interpolated pressure brought to `wvp_t`
   * before it is scaled by rh.
   */
  function WaterVaporPressureIntended(temp: FixNum, rh: FixNum): (r: FixNum)
    requires IsTemp(temp) && IsRh(rh)
    ensures WellFormed(r) && r.t == Int32 && r.prec == 3
    ensures !Valid(temp) || !Valid(rh) || !Covered(temp) ==> r == Invalid(Int32, 3)
  {
    if !Valid(temp) || !Valid(rh) then Invalid(Int32, 3)
    else if !Covered(temp) then Invalid(Int32, 3)
    else Scaled(Saturation(temp), ClampRh(rh))
  }

  // ----------- The arithmetic of the two computations -----------

  /** The weighted sum of the entry a of a whole degree and the entry b above it, at f hundredths above the degree. */
  function Mix(a: int, b: int, f: int): int
  {
    a * (100 - f) + b * f
  }

  /** The table index of floor(temp): degrees above MIN_T. */
  function Index(temp: FixNum): int
    requires IsTemp(temp)
  {
    Floor(temp) - MIN_T
  }

  /** What temp has above floor(temp), in hundredths of a degree. */
  function Hundredths(temp: FixNum): int
    requires IsTemp(temp)
  {
    temp.mantissa - 100 * Floor(temp)
  }

  lemma ProductBound(a: int, b: int, amax: int, bmax: int)
    requires 0 <= a <= amax && 0 <= b <= bmax
    ensures 0 <= a * b <= amax * bmax
  {
    MulMono(a, amax, b);
    MulMono(b, bmax, amax);
  }

  /** Two adjacent table entries as numbers: positive, rising, at most 73773. */
  lemma EntryPair(i: int)
    requires 0 <= i < |WVP| - 1
    ensures Valid(Entry(i)) && Valid(Entry(i + 1))
    ensures 0 < WVP[i] < WVP[i + 1] <= 73773
  {
    TableShape();
  }

  /**
   * `p0 * w0 + p1 * w1` for entries of at most 73773 and weights in [0, 100]
   * hundredths adding up to 100: exact, at precision 5, without overflow.
   */
  lemma Weighted(p0: FixNum, w0: FixNum, p1: FixNum, w1: FixNum)
    requires p0.t == Int32 && p0.prec == 3 && 0 <= p0.mantissa <= 73773
    requires p1.t == Int32 && p1.prec == 3 && 0 <= p1.mantissa <= 73773
    requires IsTemp(w0) && IsTemp(w1) && 0 <= w0.mantissa <= 100 && w1.mantissa == 100 - w0.mantissa
    ensures Valid(Add(Mul(p0, w0), Mul(p1, w1)))
    ensures Add(Mul(p0, w0), Mul(p1, w1)).mantissa == Mix(p1.mantissa, p0.mantissa, w0.mantissa)
    ensures 0 <= Add(Mul(p0, w0), Mul(p1, w1)).mantissa <= 14754600
  {
    ProductBound(p0.mantissa, w0.mantissa, 73773, 100);
    ProductBound(p1.mantissa, w1.mantissa, 73773, 100);
    var a, b := Mul(p0, w0), Mul(p1, w1);
    assert a.mantissa == p0.mantissa * w0.mantissa;
    assert b.mantissa == p1.mantissa * w1.mantissa;
    AddSubExact(a, b);
  }

  /** As written, the sum weights the entry above floor(temp) by the complement of the fractional part. */
  lemma SumAsWrittenIs(temp: FixNum)
    requires IsTemp(temp) && Valid(temp) && Covered(temp)
    ensures Valid(SumAsWritten(temp))
    ensures SumAsWritten(temp).mantissa == Mix(WVP[Index(temp) + 1], WVP[Index(temp)], Hundredths(temp))
    ensures 0 <= SumAsWritten(temp).mantissa <= 14754600
  {
    var t, i := Floor(temp), Index(temp);
    FractionExact(temp);
    EntryPair(i);
    var t0 := Fraction(temp, t);
    Weighted(Entry(i), t0, Entry(i + 1), Complement(t0));
  }

  /** As intended, the sum weights the entry above floor(temp) by the fractional part. */
  lemma SumIntendedIs(temp: FixNum)
    requires IsTemp(temp) && Valid(temp) && Covered(temp)
    ensures Valid(SumIntended(temp))
    ensures SumIntended(temp).mantissa == Mix(WVP[Index(temp)], WVP[Index(temp) + 1], Hundredths(temp))
    ensures 0 <= SumIntended(temp).mantissa <= 14754600
  {
    var t, i := Floor(temp), Index(temp);
    FractionExact(temp);
    EntryPair(i);
    var t0 := Fraction(temp, t);
    Weighted(Entry(i + 1), t0, Entry(i), Complement(t0));
  }

  /**
   * `num * rh / 100` on return as `wvp_t`: the product of the mantissas wraps to
   * 32 bits, is divided by 100 with truncation and rounded from precision
   * prec(num) + 1 to 3, unless the wrapped product hits a limit (then it is invalid).
   */
  lemma ScaledExact(num: FixNum, h: FixNum)
    requires WellFormed(num) && WellFormed(h) && Valid(num) && Valid(h) && num.t == Int32 && h.t == Int16
    requires 3 <= num.prec + h.prec <= MAX_PREC
    requires MinValue(Int32) < ToInt32(num.mantissa * h.mantissa) < MaxValue(Int32)
    ensures Scaled(num, h).mantissa == ScaleDown(Div(ToInt32(num.mantissa * h.mantissa), 100), num.prec + h.prec, 3)
  {
    var x := ToInt32(num.mantissa * h.mantissa);
    var m := Mul(num, h);
    assert m.mantissa == x;
    var hundred := FixNum(Int16, 0, 100);
    assert Exact(m, m.prec) == x;
    QuotIsDiv(m, hundred);
    var q := Quot(m, hundred);
    assert q.mantissa == Div(x, 100);
    assert InType(Int32, Div(x, 100));
  }

  /**
   * As written, for a covered temperature t + f/100 (f in [0, 99]) and rh clamped
   * to h tenths of a percent, the result is s * h wrapped to 32 bits, over 100,
   * rounded to microbars, where s = WVP[t + 1] * (100 - f) + WVP[t] * f: the entry
   * of t weighted by the fractional part and the entry above by its complement.
   * (When the wrapped product hits a limit it reads as invalid.)
   */
  lemma AsWritten(temp: FixNum, rh: FixNum)
    requires IsTemp(temp) && IsRh(rh) && Valid(temp) && Valid(rh) && Covered(temp)
    requires var s := Mix(WVP[Index(temp) + 1], WVP[Index(temp)], Hundredths(temp));
      MinValue(Int32) < ToInt32(s * ClampRh(rh).mantissa) < MaxValue(Int32)
    ensures var s := Mix(WVP[Index(temp) + 1], WVP[Index(temp)], Hundredths(temp));
      WaterVaporPressure(temp, rh).mantissa == ScaleDown(Div(ToInt32(s * ClampRh(rh).mantissa), 100), 6, 3)
  {
    SumAsWrittenIs(temp);
    ClampRhIsClamp(rh);
    ScaledExact(SumAsWritten(temp), ClampRh(rh));
  }

  // ----------- The evidently intended computation -----------

  /** For x >= 0 the rounding division by ten rounds halves up. */
  lemma RoundDiv10OfNatural(x: int)
    requires x >= 0
    ensures RoundDiv10(x) == (x + 5) / 10
  {
  }

  /** Lowering a natural value by one decimal rounds halves up. */
  lemma ScaleDownOne(y: int)
    requires y >= 0
    ensures ScaleDown(y, 4, 3) == (y + 5) / 10
  {
    RoundDiv10OfNatural(y);
  }

  /** Lowering a natural value by two decimals rounds twice, halves up each time. */
  lemma ScaleDownTwo(s: int)
    requires s >= 0
    ensures ScaleDown(s, 5, 3) == ((s + 5) / 10 + 5) / 10
  {
    RoundDiv10OfNatural(s);
    var q := (s + 5) / 10;
    RoundDiv10OfNatural(q);
    assert ScaleDown(s, 5, 3) == ScaleDown(q, 4, 3) == ScaleDown(RoundDiv10(q), 3, 3);
  }

  /** Rounding twice a value between two multiples of a hundred stays between them. */
  lemma Rounding(s: int, a: int, b: int)
    requires 100 * a <= s <= 100 * b
    ensures a <= ((s + 5) / 10 + 5) / 10 <= b
    ensures s == 100 * a ==> ((s + 5) / 10 + 5) / 10 == a
  {
  }

  /** The weighted sum lies between the weighted entries, and is the first at weight 0. */
  lemma MixBounds(a: int, b: int, f: int)
    requires 0 < a < b && 0 <= f <= 100
    ensures 100 * a <= Mix(a, b, f) <= 100 * b
    ensures f == 0 ==> Mix(a, b, f) == 100 * a
  {
    var u := (b - a) * f;
    assert Mix(a, b, f) == 100 * a + u by {
      assert a * (100 - f) == 100 * a - a * f;
      assert b * f - a * f == u;
    }
    MulMono(0, f, b - a);
    MulMono(f, 100, b - a);
  }

  /** Rounding the weighted sum of a <= b to two fewer decimals stays within [a, b], and gives a at weight 0. */
  lemma Interpolate(a: int, b: int, f: int)
    requires 0 < a < b && 0 <= f <= 100
    ensures a <= ScaleDown(Mix(a, b, f), 5, 3) <= b
    ensures f == 0 ==> ScaleDown(Mix(a, b, f), 5, 3) == a
  {
    var s := Mix(a, b, f);
    MixBounds(a, b, f);
    Rounding(s, a, b);
    ScaleDownTwo(s);
  }

  /** Bringing a natural pressure at precision 5 to `wvp_t` rounds it to two fewer decimals. */
  lemma Lowered(n: FixNum)
    requires n.t == Int32 && n.prec == 5 && 0 <= n.mantissa <= 14754600
    ensures Valid(ConvertTo(n, Int32, 3))
    ensures ConvertTo(n, Int32, 3).mantissa == ScaleDown(n.mantissa, 5, 3)
  {
  }

  /**
   * The interpolated saturation pressure is the weighted sum of the entries around temp,
   * rounded to microbars; it lies between them, and is the entry itself at a whole degree.
   */
  lemma SaturationBetween(temp: FixNum)
    requires IsTemp(temp) && Valid(temp) && Covered(temp)
    ensures Valid(Saturation(temp))
    ensures Saturation(temp).mantissa == ScaleDown(Mix(WVP[Index(temp)], WVP[Index(temp) + 1], Hundredths(temp)), 5, 3)
    ensures WVP[Index(temp)] <= Saturation(temp).mantissa <= WVP[Index(temp) + 1]
    ensures Hundredths(temp) == 0 ==> Saturation(temp).mantissa == WVP[Index(temp)]
  {
    SumIntendedIs(temp);
    Lowered(SumIntended(temp));
    FractionExact(temp);
    EntryPair(Index(temp));
    Interpolate(WVP[Index(temp)], WVP[Index(temp) + 1], Hundredths(temp));
  }

  /** Rounding p * h / 1000 halves up, for h in [0, 1000]: at most p, and p at h = 1000. */
  lemma Thousandths(y: int, p: int, h: int)
    requires 0 <= p && 0 <= h <= 1000 && y == p * h
    ensures (y / 100 + 5) / 10 == (y + 500) / 1000
    ensures 0 <= (y + 500) / 1000 <= p
    ensures h == 1000 ==> (y + 500) / 1000 == p
  {
    MulMono(h, 1000, p);
    var q, r := y / 100, y % 100;
    assert y + 500 == 100 * (q + 5) + r;
  }

  /** `num * rh / 100` for a natural num of at most 73773 and rh in [0, 1000] tenths: the product over 1000, rounded halves up. */
  lemma ScaledNatural(num: FixNum, h: FixNum)
    requires num.t == Int32 && num.prec == 3 && 0 <= num.mantissa <= 73773
    requires IsRh(h) && 0 <= h.mantissa <= 1000
    ensures Valid(Scaled(num, h))
    ensures Scaled(num, h).mantissa == (num.mantissa * h.mantissa + 500) / 1000
    ensures 0 <= Scaled(num, h).mantissa <= num.mantissa
    ensures h.mantissa == 1000 ==> Scaled(num, h).mantissa == num.mantissa
  {
    var p, hm := num.mantissa, h.mantissa;
    ProductBound(p, hm, 73773, 1000);
    var y := p * hm;
    assert ToInt32(y) == y;
    ScaledExact(num, h);
    ScaleDownOne(y / 100);
    Thousandths(y, p, hm);
  }

  /**
   * As intended, the result is the saturation pressure p times the clamped humidity
   * h/1000, rounded to the nearest microbar (halves up): at most p, and p itself in
   * saturated air.
   */
  lemma IntendedScalesSaturation(temp: FixNum, rh: FixNum)
    requires IsTemp(temp) && IsRh(rh) && Valid(temp) && Valid(rh) && Covered(temp)
    ensures Valid(WaterVaporPressureIntended(temp, rh))
    ensures WaterVaporPressureIntended(temp, rh).mantissa == (Saturation(temp).mantissa * ClampRh(rh).mantissa + 500) / 1000
    ensures 0 <= WaterVaporPressureIntended(temp, rh).mantissa <= Saturation(temp).mantissa
    ensures ClampRh(rh).mantissa == 1000 ==> WaterVaporPressureIntended(temp, rh).mantissa == Saturation(temp).mantissa
  {
    SaturationBetween(temp);
    ClampRhIsClamp(rh);
    EntryPair(Index(temp));
    ScaledNatural(Saturation(temp), ClampRh(rh));
  }

  /**
   * As intended, the vapour pressure never exceeds the table's saturation pressure at
   * the degree above floor(temp), and in saturated air lies between the entries of
   * floor(temp) and the degree above, equal to the entry at a whole degree.
   */
  lemma IntendedWithinTable(temp: FixNum, rh: FixNum)
    requires IsTemp(temp) && IsRh(rh) && Valid(temp) && Valid(rh) && Covered(temp)
    ensures Valid(WaterVaporPressureIntended(temp, rh))
    ensures 0 <= WaterVaporPressureIntended(temp, rh).mantissa <= WVP[Index(temp) + 1]
    ensures rh.mantissa >= 1000 ==> WVP[Index(temp)] <= WaterVaporPressureIntended(temp, rh).mantissa <= WVP[Index(temp) + 1]
    ensures rh.mantissa >= 1000 && Hundredths(temp) == 0 ==> WaterVaporPressureIntended(temp, rh).mantissa == WVP[Index(temp)]
  {
    SaturationBetween(temp);
    IntendedScalesSaturation(temp, rh);
    ClampRhIsClamp(rh);
  }

  /** As intended, more humid air at the same temperature never has a lower vapour pressure. */
  lemma IntendedMonotoneInRh(temp: FixNum, rh1: FixNum, rh2: FixNum)
    requires IsTemp(temp) && IsRh(rh1) && IsRh(rh2) && Valid(temp) && Valid(rh1) && Valid(rh2) && Covered(temp)
    requires rh1.mantissa <= rh2.mantissa
    ensures WaterVaporPressureIntended(temp, rh1).mantissa <= WaterVaporPressureIntended(temp, rh2).mantissa
  {
    IntendedScalesSaturation(temp, rh1);
    IntendedScalesSaturation(temp, rh2);
    ClampRhIsClamp(rh1);
    ClampRhIsClamp(rh2);
    SaturationBetween(temp);
    MulMono(ClampRh(rh1).mantissa, ClampRh(rh2).mantissa, Saturation(temp).mantissa);
  }

  // ----------- The two discrepancies, on concrete inputs -----------

  /** The entries the two examples below read. */
  lemma SampleEntries()
    ensures WVP[40] == 6107 && WVP[41] == 6565
    ensures WVP[60] == 23371 && WVP[61] == 24858
  {
    assert WVP[40] == WVP_MILD[13] && WVP[41] == WVP_MILD[14];
    assert WVP[60] == WVP_WARM[6] && WVP[61] == WVP_WARM[7];
  }

  /** Where a whole degree t falls in the table. */
  lemma WholeDegree(t: int)
    requires MIN_T <= t < MAX_T
    ensures IsTemp(FixNum(Int16, 2, 100 * t)) && Valid(FixNum(Int16, 2, 100 * t)) && Covered(FixNum(Int16, 2, 100 * t))
    ensures Index(FixNum(Int16, 2, 100 * t)) == t - MIN_T && Hundredths(FixNum(Int16, 2, 100 * t)) == 0
  {
    assert Floor(FixNum(Int16, 2, 100 * t)) == t;
  }

  /** The roundings the two examples below go through. */
  lemma SampleRoundings()
    ensures ToInt32(656500 * 500) == 328250000
    ensures ScaleDown(Div(328250000, 100), 6, 3) == 3283
    ensures ToInt32(2485800 * 1000) == -1809167296
    ensures ScaleDown(Div(-1809167296, 100), 6, 3) == -18092
  {
    assert Div(328250000, 100) == 3282500;
    assert ScaleDown(3282500, 6, 3) == ScaleDown(328250, 5, 3) == ScaleDown(32825, 4, 3) == 3283;
    assert Div(-1809167296, 100) == -18091672;
    assert ScaleDown(-18091672, 6, 3) == ScaleDown(-1809167, 5, 3) == ScaleDown(-180917, 4, 3) == -18092;
  }

  /**
   * As written, at a whole degree t, with p the entry of t + 1 and h the clamped rh,
   * the result is 100 * p * h wrapped to 32 bits, over 100, rounded to microbars.
   */
  lemma AsWrittenWhole(t: int, rh: FixNum, p: int, h: int)
    requires MIN_T <= t < MAX_T && IsRh(rh) && Valid(rh)
    requires p == WVP[t - MIN_T + 1] && h == ClampRh(rh).mantissa
    requires MinValue(Int32) < ToInt32(100 * p * h) < MaxValue(Int32)
    ensures WaterVaporPressure(FixNum(Int16, 2, 100 * t), rh) == FixNum(Int32, 3, ScaleDown(Div(ToInt32(100 * p * h), 100), 6, 3))
  {
    WholeDegree(t);
    var temp := FixNum(Int16, 2, 100 * t);
    assert Mix(p, WVP[t - MIN_T], 0) == 100 * p;
    AsWritten(temp, rh);
  }

  /** As intended, at a whole degree t, with p the entry of t and h the clamped rh, the result is p * h / 1000, rounded. */
  lemma IntendedWhole(t: int, rh: FixNum, p: int, h: int)
    requires MIN_T <= t < MAX_T && IsRh(rh) && Valid(rh)
    requires p == WVP[t - MIN_T] && h == ClampRh(rh).mantissa
    ensures WaterVaporPressureIntended(FixNum(Int16, 2, 100 * t), rh) == FixNum(Int32, 3, (p * h + 500) / 1000)
  {
    WholeDegree(t);
    var temp := FixNum(Int16, 2, 100 * t);
    SaturationBetween(temp);
    IntendedScalesSaturation(temp, rh);
  }

  /** At 0.00 degrees and 50.0 % the code weights the entry of +1 degree fully: 3.283 mb. */
  lemma WeightsSwapped(temp: FixNum, rh: FixNum)
    requires temp == FixNum(Int16, 2, 0) && rh == FixNum(Int16, 1, 500)
    ensures WaterVaporPressure(temp, rh) == FixNum(Int32, 3, 3283)
  {
    SampleEntries();
    ClampRhIsClamp(rh);
    SampleRoundings();
    AsWrittenWhole(0, rh, 6565, 500);
  }

  /** At 0.00 degrees and 50.0 % the intended result is half the saturation pressure at 0 degrees, 3.054 mb. */
  lemma HalfSaturated(temp: FixNum, rh: FixNum)
    requires temp == FixNum(Int16, 2, 0) && rh == FixNum(Int16, 1, 500)
    ensures WaterVaporPressureIntended(temp, rh) == FixNum(Int32, 3, 3054)
  {
    SampleEntries();
    ClampRhIsClamp(rh);
    IntendedWhole(0, rh, 6107, 500);
  }

  /**
   * At 20.00 degrees and 100.0 % the product 2485800 * 1000 at precision 6 exceeds
   * 32 bits and wraps: -18.092 mb where the saturation pressure 23.371 mb is meant.
   */
  lemma ProductWraps(temp: FixNum, rh: FixNum)
    requires temp == FixNum(Int16, 2, 2000) && rh == FixNum(Int16, 1, 1000)
    ensures WaterVaporPressure(temp, rh) == FixNum(Int32, 3, -18092)
    ensures WaterVaporPressureIntended(temp, rh) == FixNum(Int32, 3, 23371)
  {
    SampleEntries();
    ClampRhIsClamp(rh);
    SampleRoundings();
    AsWrittenWhole(20, rh, 24858, 1000);
    IntendedWhole(20, rh, 23371, 1000);
  }
}
