// What the two drivers of the Honeywell HumidIcon HIHxxx-020 sensors share:
// the four bytes a measurement is fetched as (two status bits, a 14-bit
// humidity word, a 14-bit temperature word), and the fixed-point expressions
// that turn the words into tenths of a percent and tenths of a degree. Each
// driver writes `Data::set` and the two expressions out again; they differ
// only in the divisor, 2^14 - 2 in `HIH` and 2^14 - 1 in `HIH6120`.
module HumidIcon {
  import opened CInt
  import opened FixNumUtil
  import opened FixNum

  /** The I2C address of the sensor and the length of a measurement. */
  const ADDR: int := 0x27
  const BYTES: int := 4

  /** The two 14-bit words of a measurement. */
  datatype Data = Data(h: int, t: int)

  /** Four bytes off the bus. */
  predicate Fetched(b: seq<int>)
  {
    |b| == BYTES && forall k :: 0 <= k < BYTES ==> IsUInt8(b[k])
  }

  /**
   * `Data::set(b)`: the humidity word `(b[0] & 0x3f) << 8 | b[1]` is the low six bits of
   * b[0] over b[1], the temperature word `b[2] << 6 | b[3] >> 2` is b[2] over the top
   * six bits of b[3], and the status `b[0] >> 6` is the top two bits of b[0].
   */
  function Set(b: seq<int>): (r: (Data, int))
    requires Fetched(b)
    ensures InRange(r.1, r.0)
  {
    (Data((b[0] % 64) * 256 + b[1], b[2] * 64 + b[3] / 4), b[0] / 64)
  }

  /** The bytes a sensor sends for the status s and the words of d, the two unused bits zero. */
  function Pack(s: int, d: Data): (b: seq<int>)
    requires InRange(s, d)
    ensures Fetched(b)
  {
    [s * 64 + d.h / 256, d.h % 256, d.t / 64, (d.t % 64) * 4]
  }

  /** What one `receive` call of the master brings back: its status and the bytes read. */
  datatype Fetch = Fetch(status: int, bytes: seq<int>)

  predicate FetchOk(f: Fetch)
  {
    IsUInt8(f.status) && Fetched(f.bytes)
  }

  /** The outcomes of the master calls one `check` may make: the measurement command and the two fetches. */
  datatype Bus = Bus(command: int, first: Fetch, second: Fetch)

  predicate BusOk(b: Bus)
  {
    IsUInt8(b.command) && FetchOk(b.first) && FetchOk(b.second)
  }

  /** Both words have 14 bits and the status has two. */
  predicate InRange(s: int, d: Data)
  {
    0 <= s < 4 && 0 <= d.h < 0x4000 && 0 <= d.t < 0x4000
  }

  /** `Data::set` reads back what the sensor packs. */
  lemma SetPack(s: int, d: Data)
    requires InRange(s, d)
    ensures Set(Pack(s, d)) == (d, s)
  {
  }

  /** Packing what `Data::set` read gives back the bytes, but for the low two bits of b[3], which it ignores. */
  lemma PackSet(b: seq<int>)
    requires Fetched(b)
    ensures Pack(Set(b).1, Set(b).0) == b[3 := b[3] - b[3] % 4]
  {
  }

  /** An int constant in a fixed-point expression: `(FixNum<int,0>)x`, int being 16 bits wide. */
  function Const(x: int): FixNum
  {
    FixNum(Int16, 0, x)
  }

  /** The sensor's full scale in each driver: `(1 << 14) - 2` in `HIH`, `(1 << 14) - 1` in `HIH6120`. */
  predicate Divisor(d: int)
  {
    d == 0x4000 - 2 || d == 0x4000 - 1
  }

  /** `fixnum32_1::scale(h) * 100 / d`, stored in a `fixnum16_1`: the relative humidity in tenths of a percent. */
  function Rh(h: int, d: int): FixNum
    requires 0 <= h < 0x4000 && Divisor(d)
  {
    ConvertTo(Quot(Mul(FromInt(Int32, 1, h), Const(100)), Const(d)), Int16, 1)
  }

  /** `fixnum32_1::scale(t) * 165 / d - 40`, stored in a `fixnum16_1`: the temperature in tenths of a degree. */
  function Temp(t: int, d: int): FixNum
    requires 0 <= t < 0x4000 && Divisor(d)
  {
    ConvertTo(Sub(Quot(Mul(FromInt(Int32, 1, t), Const(165)), Const(d)), Const(40)), Int16, 1)
  }

  /** `fixnum32_1::scale(x) * k` for a word x: the exact product in tenths. */
  lemma Product(x: int, k: int)
    requires 0 <= x < 0x4000 && (k == 100 || k == 165)
    ensures Valid(Mul(FromInt(Int32, 1, x), Const(k)))
    ensures Mul(FromInt(Int32, 1, x), Const(k)) == FixNum(Int32, 1, x * 10 * k)
  {
    var a := FromInt(Int32, 1, x);
    assert a.mantissa == x * 10;
    assert Valid(a) && Valid(Const(k));
    assert x * 10 * k <= 0x3fff * 1650;
  }

  /** `... / d` on that product: the truncated quotient, at precision 1. */
  lemma Quotient(x: int, k: int, d: int)
    requires 0 <= x < 0x4000 && (k == 100 || k == 165) && Divisor(d)
    ensures var q := Quot(Mul(FromInt(Int32, 1, x), Const(k)), Const(d));
      q == FixNum(Int32, 1, Div(x * 10 * k, d)) && Valid(q)
    ensures 0 <= Div(x * 10 * k, d) <= 10 * k
  {
    Product(x, k);
    var n := x * 10 * k;
    assert Align(FixNum(Int32, 1, n), Int32, 1) == n;
    Scaled(x, 10 * k, d);
  }

  /** A 14-bit word times k over the full scale is at most k: the quotient never reaches k + 1. */
  lemma Scaled(x: int, k: int, d: int)
    requires 0 <= x < 0x4000 && 0 < k < 0x4000 - 2 && Divisor(d)
    ensures 0 <= Div(x * k, d) <= k
  {
    DivByPositive(x * k, d);
    CInt.DivBounds(x * k, d);
    MulLe(x, 0x3fff, k);
    if d == 0x4000 - 2 {
      assert x * k < (k + 1) * (0x4000 - 2);
    } else {
      assert x * k < (k + 1) * (0x4000 - 1);
    }
  }

  /**
   * The humidity a word stands for: always valid, the word scaled to 0 .. 100.0 %
   * in tenths, truncated: h * 1000 / d.
   */
  lemma RhValue(h: int, d: int)
    requires 0 <= h < 0x4000 && Divisor(d)
    ensures Valid(Rh(h, d)) && Rh(h, d).t == Int16 && Rh(h, d).prec == 1
    ensures Rh(h, d).mantissa == Div(h * 1000, d)
    ensures 0 <= Rh(h, d).mantissa <= 1000
  {
    Quotient(h, 100, d);
    var m := Div(h * 10 * 100, d);
    assert h * 10 * 100 == h * 1000;
    ConvertSamePrecision(Int32, Int16, m, 1);
  }

  /**
   * The temperature a word stands for: always valid, the word scaled to -40.0 .. 125.0
   * degrees in tenths: t * 1650 / d truncated, less 400.
   */
  lemma TempValue(t: int, d: int)
    requires 0 <= t < 0x4000 && Divisor(d)
    ensures Valid(Temp(t, d)) && Temp(t, d).t == Int16 && Temp(t, d).prec == 1
    ensures Temp(t, d).mantissa == Div(t * 1650, d) - 400
    ensures -400 <= Temp(t, d).mantissa <= 1250
  {
    Quotient(t, 165, d);
    var m := Div(t * 10 * 165, d);
    assert t * 10 * 165 == t * 1650;
    var q := FixNum(Int32, 1, m);
    assert Align(q, Int32, 1) == m;
    assert Align(Const(40), Int32, 1) == 400;
    assert Sub(q, Const(40)) == FixNum(Int32, 1, m - 400);
    ConvertSamePrecision(Int32, Int16, m - 400, 1);
  }

  /** The readings rise with the words: a larger word never reads lower. */
  lemma Monotonic(x: int, y: int, d: int)
    requires 0 <= x <= y < 0x4000 && Divisor(d)
    ensures Rh(x, d).mantissa <= Rh(y, d).mantissa
    ensures Temp(x, d).mantissa <= Temp(y, d).mantissa
  {
    RhValue(x, d);
    RhValue(y, d);
    TempValue(x, d);
    TempValue(y, d);
    DivMono(x * 1000, y * 1000, d);
    DivMono(x * 1650, y * 1650, d);
  }

  lemma DivMono(a: int, b: int, d: int)
    requires 0 <= a <= b && d > 0
    ensures Div(a, d) <= Div(b, d)
  {
    DivByPositive(a, d);
    DivByPositive(b, d);
    CInt.DivBounds(a, d);
    CInt.DivBounds(b, d);
    if a / d > b / d {
      MulLe(b / d + 1, a / d, d);
    }
  }
}
