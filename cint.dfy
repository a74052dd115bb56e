// C integer semantics used throughout the model: fixed-width conversions
// (two's complement, as avr-gcc performs them) and division that truncates
// toward zero. Dafny's own `/` and `%` are Euclidean, so they are never used
// where the C code divides a value that may be negative.
module CInt {

  const TWO8: int := 0x100
  const TWO16: int := 0x1_0000
  const TWO32: int := 0x1_0000_0000

  predicate IsUInt8(x: int) { 0 <= x < TWO8 }
  predicate IsInt8(x: int) { -0x80 <= x < 0x80 }
  predicate IsUInt16(x: int) { 0 <= x < TWO16 }
  predicate IsInt16(x: int) { -0x8000 <= x < 0x8000 }
  predicate IsUInt32(x: int) { 0 <= x < TWO32 }
  predicate IsInt32(x: int) { -0x8000_0000 <= x < 0x8000_0000 }

  /** Conversion of any integer to `uint8_t`: reduction modulo 2^8. */
  function ToUInt8(x: int): (r: int)
    ensures IsUInt8(r) && (x - r) % TWO8 == 0
    ensures IsUInt8(x) ==> r == x
  {
    x % TWO8
  }

  /** Conversion to `int8_t`: the value congruent to x modulo 2^8 in [-128, 127]. */
  function ToInt8(x: int): (r: int)
    ensures IsInt8(r) && (x - r) % TWO8 == 0
    ensures IsInt8(x) ==> r == x
  {
    var u := x % TWO8;
    if u < 0x80 then u else u - TWO8
  }

  function ToUInt16(x: int): (r: int)
    ensures IsUInt16(r) && (x - r) % TWO16 == 0
    ensures IsUInt16(x) ==> r == x
  {
    x % TWO16
  }

  function ToInt16(x: int): (r: int)
    ensures IsInt16(r) && (x - r) % TWO16 == 0
    ensures IsInt16(x) ==> r == x
  {
    var u := x % TWO16;
    if u < 0x8000 then u else u - TWO16
  }

  function ToUInt32(x: int): (r: int)
    ensures IsUInt32(r) && (x - r) % TWO32 == 0
    ensures IsUInt32(x) ==> r == x
  {
    x % TWO32
  }

  function ToInt32(x: int): (r: int)
    ensures IsInt32(r) && (x - r) % TWO32 == 0
    ensures IsInt32(x) ==> r == x
  {
    var u := x % TWO32;
    if u < 0x8000_0000 then u else u - TWO32
  }

  function Abs(x: int): nat { if x < 0 then -x else x }

  /** C's `a / b`: the quotient truncated toward zero. */
  function Div(a: int, b: int): (q: int)
    requires b != 0
    ensures Abs(q) * Abs(b) <= Abs(a) < (Abs(q) + 1) * Abs(b)
    ensures q == 0 || ((q < 0) <==> ((a < 0) != (b < 0)))
  {
    var n, d := Abs(a), Abs(b);
    var q := n / d;
    assert q * d <= n < (q + 1) * d by { DivBounds(n, d); }
    if (a < 0) == (b < 0) then q else -q
  }

  lemma DivBounds(n: nat, d: nat)
    requires d > 0
    ensures (n / d) * d <= n < (n / d + 1) * d
  {
    assert n == (n / d) * d + n % d;
  }

  /** For a non-negative n, a multiple of d bounds n from below or above exactly when the quotient is bounded so. */
  lemma QuotientBounds(n: nat, d: nat, a: int)
    requires d > 0
    ensures a * d <= n ==> a <= n / d
    ensures n <= a * d ==> n / d <= a
  {
    DivBounds(n, d);
    var q := n / d;
    if a * d <= n && a > q {
      assert a * d >= (q + 1) * d by { MulLe(q + 1, a, d); }
    }
  }

  lemma MulLe(a: int, b: int, d: nat)
    requires a <= b
    ensures a * d <= b * d
  {
  }

  /** For a positive divisor, truncation and Euclidean division agree on a non-negative dividend and mirror on a negative one. */
  lemma DivByPositive(x: int, d: int)
    requires d > 0
    ensures x >= 0 ==> Div(x, d) == x / d
    ensures x < 0 ==> Div(x, d) == -((-x) / d)
  {
  }

  /** Truncating division by a positive divisor is monotonic. */
  lemma DivMonotone(x: int, y: int, d: int)
    requires x <= y && d > 0
    ensures Div(x, d) <= Div(y, d)
  {
    DivByPositive(x, d);
    DivByPositive(y, d);
    if 0 <= x {
      QuotientBounds(y, d, x / d);
      DivBounds(x, d);
      MulLe(x / d * d, x, 1);
    } else if y < 0 {
      DivBounds(-y, d);
      QuotientBounds(-x, d, (-y) / d);
    }
  }

  /** A common positive factor of dividend and divisor cancels in truncating division. */
  lemma DivCancel(x: int, c: int, d: int)
    requires c > 0 && d > 0
    ensures Div(x * c, d * c) == Div(x, d)
  {
    DivByPositive(x, d);
    DivByPositive(x * c, d * c);
    if x >= 0 {
      NatDivCancel(x, c, d);
    } else {
      assert -(x * c) == (-x) * c;
      NatDivCancel(-x, c, d);
    }
  }

  lemma NatDivCancel(n: nat, c: nat, d: nat)
    requires c > 0 && d > 0
    ensures (n * c) / (d * c) == n / d
  {
    var q := n / d;
    DivBounds(n, d);
    ScaledBounds(n, d, q, c);
    NatDivUnique(n * c, d * c, q);
  }

  /** Bounds q * d <= n < (q + 1) * d survive multiplying everything by a positive c. */
  lemma ScaledBounds(n: int, d: int, q: int, c: int)
    requires c > 0 && q * d <= n < (q + 1) * d
    ensures q * (d * c) <= n * c < (q + 1) * (d * c)
  {
    MulLe(q * d, n, c);
    MulLe(n + 1, (q + 1) * d, c);
    assert (q * d) * c == q * (d * c);
    assert ((q + 1) * d) * c == (q + 1) * (d * c);
    assert (n + 1) * c == n * c + c;
  }

  /** The quotient of a non-negative n is the only q with q * d <= n < (q + 1) * d. */
  lemma NatDivUnique(n: nat, d: nat, q: int)
    requires d > 0 && q * d <= n < (q + 1) * d
    ensures n / d == q
  {
    QuotientBounds(n, d, q);
    var r := n / d;
    DivBounds(n, d);
    if r > q {
      MulLe(q + 1, r, d);
    }
  }

  /** Truncating division keeps a quotient between the bounds lo and hi when the dividend is between lo * d and hi * d. */
  lemma DivBetween(x: int, d: int, lo: int, hi: int)
    requires d > 0 && lo * d <= x <= hi * d
    ensures lo <= Div(x, d) <= hi
  {
    DivByPositive(x, d);
    if x >= 0 {
      QuotientBounds(x, d, hi);
      QuotientBounds(x, d, lo);
    } else {
      var n := -x;
      assert (-lo) * d == -(lo * d) && (-hi) * d == -(hi * d);
      QuotientBounds(n, d, -lo);
      QuotientBounds(n, d, -hi);
    }
  }

  /** C's `a % b`: the remainder that goes with `Div`, carrying the sign of a. */
  function Rem(a: int, b: int): (r: int)
    requires b != 0
    ensures a == Div(a, b) * b + r
    ensures Abs(r) < Abs(b)
    ensures r == 0 || ((r < 0) <==> (a < 0))
  {
    a - Div(a, b) * b
  }

  function Pow10(n: nat): (r: nat)
    ensures r >= 1
  {
    if n == 0 then 1 else 10 * Pow10(n - 1)
  }

  lemma {:induction false} Pow10Add(m: nat, n: nat)
    ensures Pow10(m + n) == Pow10(m) * Pow10(n)
  {
    if m > 0 {
      Pow10Add(m - 1, n);
    }
  }
}
