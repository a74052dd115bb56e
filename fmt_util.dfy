// Decimal formatting into a caller-supplied character buffer. A field of
// `size` characters is filled from its right end: fraction digits, the
// decimal point, integer digits, then the sign and padding. The low four bits
// of the format byte give the number of fraction digits.
module FmtUtil {
  import opened CInt

  const FMT_NONE: bv8 := 0x00
  const FMT_PREC: bv8 := 0x0f
  const FMT_SIGN: bv8 := 0x10
  const FMT_ZERO: bv8 := 0x20
  const FMT_RIGHT: bv8 := 0x40

  function Prec(fmt: bv8): nat { (fmt & FMT_PREC) as nat }
  predicate HasSign(fmt: bv8) { fmt & FMT_SIGN != 0 }
  predicate HasZero(fmt: bv8) { fmt & FMT_ZERO != 0 }
  predicate HasRight(fmt: bv8) { fmt & FMT_RIGHT != 0 }

  /** Index (counted from the right end, from 0) just past the decimal point; 0 without fraction. */
  function First(fmt: bv8): nat { if Prec(fmt) != 0 then Prec(fmt) + 1 else 0 }

  /** The flags of a format byte, decoded once: the formatting loops only test these. */
  datatype Format = Format(first: nat, sign: bool, zero: bool, right: bool)

  function Decode(fmt: bv8): (f: Format)
    ensures f.first == First(fmt) && f.sign == HasSign(fmt) && f.zero == HasZero(fmt) && f.right == HasRight(fmt)
  {
    Format(First(fmt), HasSign(fmt), HasZero(fmt), HasRight(fmt))
  }

  predicate IsDigit(c: char) { '0' <= c <= '9' }

  function DigitChar(d: int): char
    requires 0 <= d < 10
  {
    ('0' as int + d) as char
  }

  function DigitValue(c: char): nat
    requires IsDigit(c)
  {
    c as int - '0' as int
  }

  function Spaces(n: nat): (s: seq<char>)
    ensures |s| == n && forall k :: 0 <= k < n ==> s[k] == ' '
  {
    seq(n, k => ' ')
  }

  /** The number of digit characters in s. */
  function NumDigits(s: seq<char>): nat
  {
    if s == [] then 0 else (if IsDigit(s[0]) then 1 else 0) + NumDigits(s[1..])
  }

  /** The number spelled by the digit characters of s, read left to right, ignoring all others. */
  function DigitsValue(s: seq<char>): nat
  {
    if s == [] then 0
    else (if IsDigit(s[0]) then DigitValue(s[0]) * Pow10(NumDigits(s[1..])) else 0) + DigitsValue(s[1..])
  }

  // ----------- fillOverflow and moveLeft -----------

  /** `fillOverflow`: every '0'..'8' becomes '9'; other characters are kept. */
  function Nines(s: seq<char>): (r: seq<char>)
    ensures |r| == |s|
    ensures forall k :: 0 <= k < |s| ==> (IsDigit(s[k]) ==> r[k] == '9') && (!IsDigit(s[k]) ==> r[k] == s[k])
  {
    seq(|s|, k requires 0 <= k < |s| => if '0' <= s[k] < '9' then '9' else s[k])
  }

  method FillOverflow(pos: array<char>, off: nat, size: nat)
    requires off + size <= pos.Length
    modifies pos
    ensures pos[off..off + size] == Nines(old(pos[off..off + size]))
    ensures pos[..off] == old(pos[..off]) && pos[off + size..] == old(pos[off + size..])
  {
    ghost var a := pos[..];
    var i := 0;
    while i < size
      invariant 0 <= i <= size
      invariant forall j {:trigger pos[j]} :: 0 <= j < pos.Length ==>
        pos[j] == if off <= j < off + i && '0' <= a[j] < '9' then '9' else a[j]
    {
      if '0' <= pos[off + i] < '9' {
        pos[off + i] := '9';
      }
      i := i + 1;
    }
    assert pos[off..off + size] == Nines(a[off..off + size]);
  }

  /** `moveLeft`: the rightmost `actual` characters move to the start; spaces fill the rest. */
  method MoveLeft(pos: array<char>, off: nat, size: nat, actual: nat)
    requires actual <= size && off + size <= pos.Length
    modifies pos
    ensures pos[off..off + size] == old(pos[off + size - actual..off + size]) + Spaces(size - actual)
    ensures pos[..off] == old(pos[..off]) && pos[off + size..] == old(pos[off + size..])
  {
    ghost var a := pos[..];
    var d := size - actual;
    ShiftDown(pos, off, actual, d);
    FillSpaces(pos, off + actual, off + size);
    assert forall j :: 0 <= j < pos.Length ==>
      pos[j] == if off <= j < off + actual then a[j + d] else if off + actual <= j < off + size then ' ' else a[j];
    assert pos[off..off + size] == a[off + d..off + size] + Spaces(size - actual);
  }

  /** The first loop of `moveLeft`: `n` characters move down by `d` places. */
  method ShiftDown(pos: array<char>, off: nat, n: nat, d: nat)
    requires off + n + d <= pos.Length
    modifies pos
    ensures forall j {:trigger pos[j]} :: 0 <= j < pos.Length ==>
      pos[j] == if off <= j < off + n then old(pos[j + d]) else old(pos[j])
  {
    ghost var a := pos[..];
    var i := 0;
    while i < n
      invariant 0 <= i <= n
      invariant forall j {:trigger pos[j]} :: 0 <= j < pos.Length ==> pos[j] == if off <= j < off + i then a[j + d] else a[j]
    {
      pos[off + i] := pos[off + i + d];
      i := i + 1;
    }
  }

  /** The second loop of `moveLeft`: spaces from `lo` up to `hi`. */
  method FillSpaces(pos: array<char>, lo: nat, hi: nat)
    requires lo <= hi <= pos.Length
    modifies pos
    ensures forall j {:trigger pos[j]} :: 0 <= j < pos.Length ==> pos[j] == if lo <= j < hi then ' ' else old(pos[j])
  {
    ghost var a := pos[..];
    var i := lo;
    while i < hi
      invariant lo <= i <= hi
      invariant forall j {:trigger pos[j]} :: 0 <= j < pos.Length ==> pos[j] == if lo <= j < i then ' ' else a[j]
    {
      pos[i] := ' ';
      i := i + 1;
    }
  }

  // ----------- formatInvalid -----------

  /** What `formatInvalid` writes: '.' at the point, a '+' in front under FMT_SIGN, '?' elsewhere. */
  function InvalidChar(size: nat, fmt: bv8, k: nat): char
  {
    if size - 1 - k + 1 == First(fmt) then '.'
    else if HasSign(fmt) && k == 0 then '+'
    else '?'
  }

  function InvalidField(size: nat, fmt: bv8): (s: seq<char>)
    ensures |s| == size
  {
    seq(size, k requires 0 <= k < size => InvalidChar(size, fmt, k))
  }

  /**
   * `formatInvalid`. Its zero-fill branch tests `(!fmt & FMT_ZERO)`, which is 0 for
   * every format, so that branch never runs and every position is counted.
   */
  method FormatInvalid(pos: array<char>, off: nat, size: nat, fmt: bv8) returns (actualSize: nat)
    requires off + size <= pos.Length
    modifies pos
    ensures actualSize == size
    ensures pos[off..off + size] == InvalidField(size, fmt)
    ensures pos[..off] == old(pos[..off]) && pos[off + size..] == old(pos[off + size..])
  {
    var sc := if HasSign(fmt) then '+' else ' ';
    actualSize := 0;
    var first := First(fmt);
    // The zero-fill test `(!fmt & FMT_ZERO)`: `!fmt` is 0 or 1, so the test is always 0
    // and the branch it guards is left out of the loop below.
    var zeroFillTest: bv8 := (if fmt == 0 then 1 else 0) & FMT_ZERO;
    assert zeroFillTest == 0;
    var i := 0;
    while i < size
      invariant 0 <= i <= size && actualSize == i
      invariant forall k :: size - i <= k < size ==> pos[off + k] == InvalidChar(size, fmt, k)
      invariant pos[..off] == old(pos[..off]) && pos[off + size..] == old(pos[off + size..])
    {
      var k := off + size - 1 - i;
      if i + 1 == first {
        pos[k] := '.';
      } else if HasSign(fmt) && i == size - 1 && sc != ' ' {
        pos[k] := sc;
      } else {
        pos[k] := '?';
      }
      actualSize := actualSize + 1;
      i := i + 1;
    }
  }

  // ----------- formatDecimalT -----------

  /** The loop state of `formatDecimalT` after some steps; `out` is the written suffix of the field. */
  datatype FmtState = FmtState(x: int, sc: char, actual: nat, out: seq<char>)

  function InitState(x: int, f: Format): FmtState
  {
    var sc := if f.sign then '+' else ' ';
    if x < 0 then FmtState(-x, '-', 0, []) else FmtState(x, sc, 0, [])
  }

  /** Step i (counted from the right end) of the loop. */
  function Step(i: nat, size: nat, f: Format, st: FmtState): FmtState
  {
    if i + 1 == f.first then
      st.(actual := st.actual + 1, out := ['.'] + st.out)
    else if !f.zero && st.x == 0 && i > f.first then
      st.(sc := ' ', actual := st.actual + (if st.sc != ' ' then 1 else 0), out := [st.sc] + st.out)
    else if f.sign && i == size - 1 && st.sc != ' ' then
      st.(actual := st.actual + 1, out := [st.sc] + st.out)
    else if st.x >= 0 then
      st.(x := st.x / 10, actual := st.actual + 1, out := [DigitChar(st.x % 10)] + st.out)
    else
      st
  }

  function Run(n: nat, x: int, size: nat, f: Format): FmtState
  {
    if n == 0 then InitState(x, f) else Step(n - 1, size, f, Run(n - 1, x, size, f))
  }

  /** The field after the loop: the overflow fill when digits remain, then the left shift. */
  function Finish(st: FmtState, size: nat, f: Format): seq<char>
  {
    var filled := if st.x != 0 then Nines(st.out) else st.out;
    if !f.right && st.actual < size && st.actual <= |filled| then
      filled[|filled| - st.actual..] + Spaces(size - st.actual)
    else filled
  }

  /** The field `formatDecimalT` leaves in the buffer. */
  function Formatted(x: int, size: nat, f: Format): seq<char>
  {
    Finish(Run(size, x, size, f), size, f)
  }

  /** The count `formatDecimalT` returns. */
  function FormattedSize(x: int, size: nat, f: Format): nat
  {
    Run(size, x, size, f).actual
  }

  /**
   * The loop of `formatDecimalT`: the field is written from its right end and `rest` is
   * the part of |x| that did not fit.
   */
  method WriteField(x: int, pos: array<char>, off: nat, size: nat, fmt: bv8) returns (rest: int, actualSize: nat)
    requires -0x7fff_ffff <= x <= 0x7fff_ffff
    requires off + size <= pos.Length
    modifies pos
    ensures var st := Run(size, x, size, Decode(fmt));
      rest == st.x && actualSize == st.actual && pos[off..off + size] == st.out
    ensures pos[..off] == old(pos[..off]) && pos[off + size..] == old(pos[off + size..])
  {
    var sc := if HasSign(fmt) then '+' else ' ';
    var v := x;
    if v < 0 {
      v := -v;
      sc := '-';
    }
    actualSize := 0;
    var first := First(fmt);
    ghost var a := pos[..];
    var i := 0;
    ghost var out: seq<char> := [];
    ghost var f := Decode(fmt);
    while i < size
      invariant 0 <= i <= size && |out| == i
      invariant Run(i, x, size, f) == FmtState(v, sc, actualSize, out)
      invariant v >= 0
      invariant pos[..] == a[..off + size - i] + out + a[off + size..]
    {
      var c;
      c, v, sc, actualSize := NextChar(i, size, first, fmt, f, v, sc, actualSize, x, out);
      PutFront(pos[..], a, off + size - 1 - i, c, out, a[off + size..]);
      out := [c] + out;
      pos[off + size - 1 - i] := c;
      i := i + 1;
    }
    Window(pos[..], a, off, size, out);
    rest := v;
  }

  /** Writing c just before the written part of a field extends that part by c. */
  lemma PutFront(p: seq<char>, a: seq<char>, k: nat, c: char, out: seq<char>, post: seq<char>)
    requires k < |a| && p == a[..k + 1] + out + post
    ensures p[k := c] == a[..k] + ([c] + out) + post
  {
    assert a[..k + 1] == a[..k] + [a[k]];
    assert p[k := c] == a[..k] + [c] + out + post;
  }

  /** The three parts of a buffer built as pre + out + post. */
  lemma Window(p: seq<char>, a: seq<char>, off: nat, size: nat, out: seq<char>)
    requires off + size <= |a| && |out| == size && p == a[..off] + out + a[off + size..]
    ensures p[off..off + size] == out && p[..off] == a[..off] && p[off + size..] == a[off + size..]
  {
  }

  /** One step of the loop of `formatDecimalT`: the character written at position i from the right. */
  method NextChar(i: nat, size: nat, first: nat, fmt: bv8, ghost f: Format, v: int, sc: char, actualSize: nat,
                  ghost x: int, ghost out: seq<char>)
    returns (c: char, v2: int, sc2: char, actual2: nat)
    requires first == First(fmt) && f == Decode(fmt) && v >= 0
    requires Run(i, x, size, f) == FmtState(v, sc, actualSize, out)
    ensures Run(i + 1, x, size, f) == FmtState(v2, sc2, actual2, [c] + out)
    ensures v2 >= 0
  {
    v2, sc2, actual2 := v, sc, actualSize;
    if i + 1 == first {
      c := '.';
      actual2 := actual2 + 1;
    } else if !HasZero(fmt) && v == 0 && i > first {
      c := sc;
      if sc != ' ' {
        actual2 := actual2 + 1;
      }
      sc2 := ' ';
    } else if HasSign(fmt) && i == size - 1 && sc != ' ' {
      c := sc;
      actual2 := actual2 + 1;
    } else {
      c := DigitChar(v % 10);
      v2 := v / 10;
      actual2 := actual2 + 1;
    }
  }

  /**
   * `formatDecimal` for the four integer types (the 8-bit overloads widen to int16 first,
   * which does not change the value). x must lie above the most negative int32; the
   * int16 overload's most negative value, whose negation stays negative in C, is not
   * told apart here.
   */
  method FormatDecimal(x: int, pos: array<char>, off: nat, size: nat, fmt: bv8) returns (actualSize: nat)
    requires -0x7fff_ffff <= x <= 0x7fff_ffff
    requires off + size <= pos.Length
    modifies pos
    ensures actualSize == FormattedSize(x, size, Decode(fmt))
    ensures pos[off..off + size] == Formatted(x, size, Decode(fmt))
    ensures pos[..off] == old(pos[..off]) && pos[off + size..] == old(pos[off + size..])
  {
    var rest;
    rest, actualSize := WriteField(x, pos, off, size, fmt);
    ghost var f := Decode(fmt);
    ghost var st := Run(size, x, size, f);
    RunShape(size, x, size, f);
    assert Formatted(x, size, f) == Finish(st, size, f);
    if rest != 0 {
      FillOverflow(pos, off, size);
    }
    ghost var filled := pos[off..off + size];
    FinishCases(st, size, f, filled);
    if !HasRight(fmt) && actualSize < size {
      assert pos[off + size - actualSize..off + size] == filled[size - actualSize..];
      MoveLeft(pos, off, size, actualSize);
    }
  }

  lemma FinishCases(st: FmtState, size: nat, f: Format, filled: seq<char>)
    requires |st.out| == size && st.actual <= size
    requires filled == if st.x != 0 then Nines(st.out) else st.out
    ensures !f.right && st.actual < size ==> Finish(st, size, f) == filled[size - st.actual..] + Spaces(size - st.actual)
    ensures f.right || st.actual == size ==> Finish(st, size, f) == filled
  {
  }

  // ----------- Properties of the formatted field -----------

  /** The loop writes one character per step, in front of the ones before, and counts at most one. */
  lemma StepShape(i: nat, size: nat, f: Format, st: FmtState)
    requires st.x >= 0 && !IsDigit(st.sc)
    ensures var st2 := Step(i, size, f, st);
      && |st2.out| == |st.out| + 1 && st2.out[1..] == st.out
      && st2.actual <= st.actual + 1 && st2.x >= 0 && !IsDigit(st2.sc)
  {
    assert Step(i, size, f, st).out[1..] == st.out;
  }

  /** After n steps the field holds n characters, at most n of them counted. */
  lemma {:induction false} RunShape(n: nat, x: int, size: nat, f: Format)
    requires -0x7fff_ffff <= x <= 0x7fff_ffff
    ensures var st := Run(n, x, size, f);
      && |st.out| == n && st.actual <= n && st.x >= 0 && !IsDigit(st.sc)
  {
    if n > 0 {
      RunShape(n - 1, x, size, f);
      StepShape(n - 1, size, f, Run(n - 1, x, size, f));
    }
  }

  /** The digits written so far and the value still to be written make up |x|. */
  lemma {:induction false} RunValue(n: nat, x: int, size: nat, f: Format)
    requires -0x7fff_ffff <= x <= 0x7fff_ffff
    ensures var st := Run(n, x, size, f);
      st.x * Pow10(NumDigits(st.out)) + DigitsValue(st.out) == Abs(x)
  {
    if n > 0 {
      RunValue(n - 1, x, size, f);
      RunShape(n - 1, x, size, f);
      StepValue(n - 1, size, f, Run(n - 1, x, size, f));
    }
  }

  /** One step keeps the digits-plus-remainder sum: a digit step moves the last digit of x into the field. */
  lemma StepValue(i: nat, size: nat, f: Format, st: FmtState)
    requires st.x >= 0 && !IsDigit(st.sc)
    ensures var st2 := Step(i, size, f, st);
      st2.x * Pow10(NumDigits(st2.out)) + DigitsValue(st2.out) == st.x * Pow10(NumDigits(st.out)) + DigitsValue(st.out)
  {
    var st2 := Step(i, size, f, st);
    assert st2.out[1..] == st.out;
    if i + 1 == f.first || (!f.zero && st.x == 0 && i > f.first) || (f.sign && i == size - 1 && st.sc != ' ') {
      assert !IsDigit(st2.out[0]);
      assert NumDigits(st2.out) == NumDigits(st.out);
      assert DigitsValue(st2.out) == DigitsValue(st.out);
    } else {
      DigitStep(st.x, st.out);
    }
  }

  lemma DigitStep(x: nat, out: seq<char>)
    ensures var s := [DigitChar(x % 10)] + out;
      (x / 10) * Pow10(NumDigits(s)) + DigitsValue(s) == x * Pow10(NumDigits(out)) + DigitsValue(out)
  {
    var s := [DigitChar(x % 10)] + out;
    assert s[1..] == out;
    var p := Pow10(NumDigits(out));
    assert NumDigits(s) == NumDigits(out) + 1;
    assert DigitsValue(s) == (x % 10) * p + DigitsValue(out);
    assert Pow10(NumDigits(s)) == 10 * p;
    SplitDigit(x, p);
  }

  lemma SplitDigit(x: nat, p: int)
    ensures (x / 10) * (10 * p) + (x % 10) * p == x * p
  {
    var q, r := x / 10, x % 10;
    assert x == 10 * q + r;
    assert q * (10 * p) == (10 * q) * p;
    assert (10 * q) * p + r * p == (10 * q + r) * p;
  }

  // ----------- Digit strings -----------

  lemma {:induction false} DigitsAppend(s: seq<char>, t: seq<char>)
    ensures NumDigits(s + t) == NumDigits(s) + NumDigits(t)
    ensures DigitsValue(s + t) == DigitsValue(s) * Pow10(NumDigits(t)) + DigitsValue(t)
  {
    if s == [] {
      assert s + t == t;
    } else {
      var st := s + t;
      assert st[0] == s[0] && st[1..] == s[1..] + t;
      DigitsAppend(s[1..], t);
      var p, q := Pow10(NumDigits(s[1..])), Pow10(NumDigits(t));
      Pow10Add(NumDigits(s[1..]), NumDigits(t));
      assert Pow10(NumDigits(st[1..])) == p * q;
      var d := if IsDigit(s[0]) then DigitValue(s[0]) else 0;
      assert DigitsValue(s) == d * p + DigitsValue(s[1..]);
      assert DigitsValue(st) == d * (p * q) + DigitsValue(s[1..]) * q + DigitsValue(t);
      MulAddDistrib(d, p, DigitsValue(s[1..]), q);
    }
  }

  lemma MulAddDistrib(d: int, p: int, r: int, q: int)
    ensures (d * p + r) * q == d * (p * q) + r * q
  {
  }

  lemma MulOne(a: int, b: int)
    requires b == 1
    ensures a * b == a
  {
  }

  lemma {:induction false} SpacesHaveNoDigits(n: nat)
    ensures NumDigits(Spaces(n)) == 0 && DigitsValue(Spaces(n)) == 0
  {
    if n > 0 {
      assert Spaces(n)[1..] == Spaces(n - 1);
      SpacesHaveNoDigits(n - 1);
    }
  }

  /** Moving a prefix of spaces to the end changes neither the digits nor the number they spell. */
  lemma ShiftKeepsDigits(s: seq<char>, k: nat)
    requires k <= |s| && s[..k] == Spaces(k)
    ensures NumDigits(s[k..] + Spaces(k)) == NumDigits(s)
    ensures DigitsValue(s[k..] + Spaces(k)) == DigitsValue(s)
  {
    var sp, rest := Spaces(k), s[k..];
    assert s == sp + rest;
    SpacesHaveNoDigits(k);
    DigitsAppend(sp, rest);
    DigitsAppend(rest, sp);
    assert Pow10(NumDigits(sp)) == 1;
    assert DigitsValue(sp) * Pow10(NumDigits(rest)) == 0;
    MulOne(DigitsValue(rest), Pow10(NumDigits(sp)));
    assert DigitsValue(rest + sp) == DigitsValue(rest);
  }

  /** A string of nines (with any non-digits) spells 10^n - 1 for its n digits. */
  lemma {:induction false} NinesValue(s: seq<char>)
    ensures NumDigits(Nines(s)) == NumDigits(s)
    ensures DigitsValue(Nines(s)) + 1 == Pow10(NumDigits(s))
  {
    if s != [] {
      assert Nines(s)[1..] == Nines(s[1..]);
      NinesValue(s[1..]);
    }
  }

  // ----------- Padding -----------

  /**
   * The characters the loop does not count are spaces at the left end of the field, and
   * once one is written only spaces follow.
   */
  predicate Padded(st: FmtState, f: Format)
  {
    var n := |st.out|;
    && st.actual <= n
    && st.out[..n - st.actual] == Spaces(n - st.actual)
    && (st.actual < n ==> st.sc == ' ' && st.x == 0 && !f.zero && n > f.first + 1)
  }

  lemma StepPadding(i: nat, size: nat, f: Format, st: FmtState)
    requires |st.out| == i && st.x >= 0 && Padded(st, f)
    ensures Padded(Step(i, size, f, st), f)
  {
    var st2 := Step(i, size, f, st);
    if st2.actual < |st2.out| {
      assert st2.out[1..] == st.out;
      assert st2.out[..|st2.out| - st2.actual] == [' '] + st.out[..i - st.actual];
    }
  }

  lemma {:induction false} RunPadding(n: nat, x: int, size: nat, f: Format)
    requires -0x7fff_ffff <= x <= 0x7fff_ffff
    ensures Padded(Run(n, x, size, f), f)
  {
    if n > 0 {
      RunPadding(n - 1, x, size, f);
      RunShape(n - 1, x, size, f);
      StepPadding(n - 1, size, f, Run(n - 1, x, size, f));
    }
  }

  // ----------- What the field shows -----------

  /** The field is exactly `size` characters and the returned count never exceeds it. */
  lemma FormattedLength(x: int, size: nat, f: Format)
    requires -0x7fff_ffff <= x <= 0x7fff_ffff
    ensures |Formatted(x, size, f)| == size && FormattedSize(x, size, f) <= size
  {
    RunShape(size, x, size, f);
  }

  /** When all digits of |x| fit, the digits shown in the field spell |x|. */
  lemma FormattedFits(x: int, size: nat, f: Format)
    requires -0x7fff_ffff <= x <= 0x7fff_ffff
    requires Run(size, x, size, f).x == 0
    ensures DigitsValue(Formatted(x, size, f)) == Abs(x)
    ensures x >= 0 ==> '-' !in Formatted(x, size, f)
    ensures x < 0 ==> ('-' in Formatted(x, size, f) <==> MinusShown(x, size, f))
  {
    FormattedSign(x, size, f);
    var st := Run(size, x, size, f);
    RunShape(size, x, size, f);
    RunValue(size, x, size, f);
    assert st.x * Pow10(NumDigits(st.out)) == 0;
    RunPadding(size, x, size, f);
    if !f.right && st.actual < size {
      ShiftKeepsDigits(st.out, size - st.actual);
    }
  }

  /**
   * When |x| does not fit, every digit shown is '9' and the number they spell is
   * smaller than |x|.
   */
  lemma FormattedOverflow(x: int, size: nat, f: Format)
    requires -0x7fff_ffff <= x <= 0x7fff_ffff
    requires Run(size, x, size, f).x != 0
    ensures forall k :: 0 <= k < |Formatted(x, size, f)| && IsDigit(Formatted(x, size, f)[k]) ==> Formatted(x, size, f)[k] == '9'
    ensures DigitsValue(Formatted(x, size, f)) < Abs(x)
  {
    var st := Run(size, x, size, f);
    RunShape(size, x, size, f);
    RunValue(size, x, size, f);
    RunPadding(size, x, size, f);
    var k := size - st.actual;
    var filled := Nines(st.out);
    NinesValue(st.out);
    assert filled[..k] == Spaces(k);
    ShiftKeepsDigits(filled, k);
    MulAtLeast(st.x, Pow10(NumDigits(st.out)));
  }

  lemma MulAtLeast(a: int, p: nat)
    requires a >= 1
    ensures a * p >= p
  {
  }

  /** The character written at step i stays at index i from the right end. */
  lemma {:induction false} RunKeepsChar(n: nat, i: nat, x: int, size: nat, f: Format)
    requires -0x7fff_ffff <= x <= 0x7fff_ffff
    requires i < n
    ensures |Run(n, x, size, f).out| == n && |Run(i + 1, x, size, f).out| == i + 1
    ensures Run(n, x, size, f).out[n - 1 - i] == Run(i + 1, x, size, f).out[0]
  {
    RunShape(n, x, size, f);
    RunShape(i + 1, x, size, f);
    if n > i + 1 {
      RunKeepsChar(n - 1, i, x, size, f);
      var cur, prev := Run(n, x, size, f).out, Run(n - 1, x, size, f).out;
      assert cur[1..] == prev by {
        RunShape(n - 1, x, size, f);
        StepShape(n - 1, size, f, Run(n - 1, x, size, f));
      }
      assert cur[n - 1 - i] == prev[n - 2 - i];
    }
  }

  /**
   * With a precision p > 0 the point is written p + 1 places from the right end, so p
   * digits follow it; it stays there when the field is right-aligned or full.
   */
  lemma FormattedPoint(x: int, size: nat, f: Format)
    requires -0x7fff_ffff <= x <= 0x7fff_ffff
    requires 0 < f.first <= size
    requires f.right || FormattedSize(x, size, f) == size
    ensures |Formatted(x, size, f)| == size && Formatted(x, size, f)[size - f.first] == '.'
  {
    RunKeepsChar(size, f.first - 1, x, size, f);
    RunShape(f.first - 1, x, size, f);
    RunShape(size, x, size, f);
  }

  /**
   * Under FMT_ZERO without FMT_SIGN the field holds only digits and the point: the sign
   * branches are never taken, so a negative number is shown without its '-'.
   */
  lemma {:induction false} ZeroFillHasNoSign(n: nat, x: int, size: nat, f: Format)
    requires -0x7fff_ffff <= x <= 0x7fff_ffff
    requires f.zero && !f.sign
    ensures var st := Run(n, x, size, f);
      st.actual == |st.out| && forall k :: 0 <= k < |st.out| ==> IsDigit(st.out[k]) || st.out[k] == '.'
  {
    RunShape(n, x, size, f);
    if n > 0 {
      ZeroFillHasNoSign(n - 1, x, size, f);
      RunShape(n - 1, x, size, f);
      assert Run(n, x, size, f).out[1..] == Run(n - 1, x, size, f).out;
    }
  }

  lemma ZeroFillDropsMinus(x: int, size: nat, f: Format)
    requires -0x7fff_ffff <= x <= 0x7fff_ffff
    requires f.zero && !f.sign
    ensures '-' !in Formatted(x, size, f)
  {
    ZeroFillHasNoSign(size, x, size, f);
    RunShape(size, x, size, f);
    var st := Run(size, x, size, f);
    var filled := if st.x != 0 then Nines(st.out) else st.out;
    assert Finish(st, size, f) == filled;
    assert forall k :: 0 <= k < |filled| ==> filled[k] != '-';
  }

  // ----------- The sign -----------

  /**
   * When a negative number shows its '-': the field is not empty and does not start
   * with the point, and either FMT_SIGN reserves the leftmost position for it, or
   * without zero fill the digits of |x| all fit left of the point and before the
   * leftmost position, so the loop reaches a spare position with nothing left to write.
   */
  predicate MinusShown(x: int, size: nat, f: Format)
  {
    size > 0 && f.first != size && (f.sign || (!f.zero && size - 1 > f.first && Run(size - 1, x, size, f).x == 0))
  }

  /** Once everything is written, nothing is left to write. */
  lemma {:induction false} ZeroStaysZero(k: nat, m: nat, x: int, size: nat, f: Format)
    requires -0x7fff_ffff <= x <= 0x7fff_ffff
    requires k <= m && Run(k, x, size, f).x == 0
    ensures Run(m, x, size, f).x == 0
  {
    if k < m {
      ZeroStaysZero(k, m - 1, x, size, f);
      RunShape(m - 1, x, size, f);
    }
  }

  /** A non-negative number never writes '-'. */
  lemma {:induction false} RunNoMinus(n: nat, x: int, size: nat, f: Format)
    requires 0 <= x <= 0x7fff_ffff
    ensures Run(n, x, size, f).sc != '-' && '-' !in Run(n, x, size, f).out
  {
    if n > 0 {
      RunNoMinus(n - 1, x, size, f);
      RunShape(n - 1, x, size, f);
    }
  }

  /**
   * Before the leftmost position a negative number has written its '-' exactly when
   * the sign character has been used up, which happens at the first spare position
   * past the point with nothing left to write, and only without zero fill.
   */
  lemma {:induction false} RunMinus(n: nat, x: int, size: nat, f: Format)
    requires -0x7fff_ffff <= x < 0 && n < size
    ensures var st := Run(n, x, size, f);
      && (st.sc == '-' || st.sc == ' ')
      && ('-' in st.out <==> st.sc != '-')
      && (st.sc != '-' <==> !f.zero && n >= f.first + 2 && Run(n - 1, x, size, f).x == 0)
  {
    if n > 0 {
      RunMinus(n - 1, x, size, f);
      RunShape(n - 1, x, size, f);
      if n >= 2 {
        RunShape(n - 2, x, size, f);
        if Run(n - 2, x, size, f).x == 0 {
          ZeroStaysZero(n - 2, n - 1, x, size, f);
        }
      }
    }
  }

  /** The overflow fill turns digits into '9' and leaves every '-' where it was. */
  lemma NinesKeepsMinus(s: seq<char>)
    ensures '-' in Nines(s) <==> '-' in s
  {
    var r := Nines(s);
    if '-' in s {
      var k :| 0 <= k < |s| && s[k] == '-';
      assert r[k] == '-';
    }
    if '-' in r {
      var k :| 0 <= k < |r| && r[k] == '-';
      assert s[k] == '-';
    }
  }

  /** Moving the leading spaces of a field to its end neither adds nor removes a '-'. */
  lemma ShiftKeepsMinus(s: seq<char>, k: nat)
    requires k <= |s| && s[..k] == Spaces(k)
    ensures '-' in s[k..] + Spaces(k) <==> '-' in s
  {
    assert s == s[..k] + s[k..];
    assert '-' !in Spaces(k);
  }

  /** The overflow fill and the left shift neither add nor remove a '-'. */
  lemma FinishKeepsMinus(st: FmtState, size: nat, f: Format)
    requires |st.out| == size && Padded(st, f)
    ensures '-' in Finish(st, size, f) <==> '-' in st.out
  {
    var filled := if st.x != 0 then Nines(st.out) else st.out;
    NinesKeepsMinus(st.out);
    if !f.right && st.actual < size {
      var k := size - st.actual;
      assert st.x == 0;
      assert filled[..k] == Spaces(k);
      ShiftKeepsMinus(filled, k);
      assert Finish(st, size, f) == filled[k..] + Spaces(k);
    }
  }

  /**
   * The field of a non-negative number has no '-'; a negative number shows its '-'
   * exactly in the cases `MinusShown` names.
   */
  lemma FormattedSign(x: int, size: nat, f: Format)
    requires -0x7fff_ffff <= x <= 0x7fff_ffff
    ensures x >= 0 ==> '-' !in Formatted(x, size, f)
    ensures x < 0 ==> ('-' in Formatted(x, size, f) <==> MinusShown(x, size, f))
  {
    RunShape(size, x, size, f);
    RunPadding(size, x, size, f);
    FinishKeepsMinus(Run(size, x, size, f), size, f);
    if x >= 0 {
      RunNoMinus(size, x, size, f);
    } else {
      RunOutMinus(x, size, f);
    }
  }

  /** Before the overflow fill and the shift, a negative number's '-' is written exactly as `MinusShown` says. */
  lemma RunOutMinus(x: int, size: nat, f: Format)
    requires -0x7fff_ffff <= x < 0
    ensures '-' in Run(size, x, size, f).out <==> MinusShown(x, size, f)
  {
    if size > 0 {
      RunMinus(size - 1, x, size, f);
      RunShape(size - 1, x, size, f);
      var zeroBefore := size >= 2 && Run(size - 2, x, size, f).x == 0;
      if zeroBefore {
        ZeroStaysZero(size - 2, size - 1, x, size, f);
      }
      LastStepMinus(Run(size - 1, x, size, f), size, f, zeroBefore);
    }
  }

  /** The last step writes the '-' when FMT_SIGN asks for it or a spare position is reached, unless it writes the point. */
  lemma LastStepMinus(prev: FmtState, size: nat, f: Format, zeroBefore: bool)
    requires size > 0 && prev.x >= 0 && |prev.out| == size - 1
    requires prev.sc == '-' || prev.sc == ' '
    requires '-' in prev.out <==> prev.sc != '-'
    requires prev.sc != '-' <==> !f.zero && size - 1 >= f.first + 2 && zeroBefore
    requires zeroBefore ==> prev.x == 0
    ensures '-' in Step(size - 1, size, f, prev).out <==>
      f.first != size && (f.sign || (!f.zero && size - 1 > f.first && prev.x == 0))
  {
    var st := Step(size - 1, size, f, prev);
    assert st.out == [st.out[0]] + prev.out;
  }

  /** Worked fields: point placement and alignment. */
  lemma FormattedExamples()
    ensures Formatted(1234, 5, Decode(0x02)) == "12.34"
    ensures Formatted(5, 4, Decode(0x02 | FMT_RIGHT)) == "0.05"
    ensures Formatted(-5, 3, Decode(FMT_NONE)) == "-5 "
  {
    assert Decode(0x02 | FMT_RIGHT) == Format(3, false, false, true);
    assert Run(4, 5, 4, Format(3, false, false, true)) == FmtState(0, ' ', 4, "0.05");
  }

  /** Worked fields: zero fill with and without the sign. */
  lemma FormattedZeroFillExamples()
    ensures Formatted(-5, 3, Decode(FMT_ZERO | FMT_SIGN)) == "-05"
    ensures Formatted(-5, 3, Decode(FMT_ZERO)) == "005"
    ensures Formatted(7, 2, Decode(FMT_ZERO)) == "07"
  {
    assert Decode(FMT_ZERO | FMT_SIGN) == Format(0, true, true, false);
    assert Decode(FMT_ZERO) == Format(0, false, true, false);
    assert Run(3, -5, 3, Format(0, true, true, false)) == FmtState(0, '-', 3, "-05");
    assert Run(3, -5, 3, Format(0, false, true, false)) == FmtState(0, '-', 3, "005");
    assert Run(2, 7, 2, Format(0, false, true, false)) == FmtState(0, ' ', 2, "07");
  }

  /** Worked field: a number too wide for its field overflows to nines. */
  lemma FormattedOverflowExample()
    ensures Formatted(12345, 4, Decode(0x01)) == "99.9"
  {
    assert Decode(0x01) == Format(2, false, false, false);
    assert Run(4, 12345, 4, Format(2, false, false, false)) == FmtState(12, ' ', 4, "34.5");
  }

  /** Without FMT_RIGHT the counted characters come first and spaces fill the rest of the field. */
  lemma LeftAligned(x: int, size: nat, f: Format)
    requires -0x7fff_ffff <= x <= 0x7fff_ffff
    ensures FormattedSize(x, size, f) <= size == |Formatted(x, size, f)|
    ensures !f.right ==>
      (Formatted(x, size, f) == Formatted(x, size, f)[..FormattedSize(x, size, f)] + Spaces(size - FormattedSize(x, size, f)))
  {
    RunShape(size, x, size, f);
    var st := Run(size, x, size, f);
    var r := Formatted(x, size, f);
    if !f.right && st.actual < size {
      assert r[..st.actual] + Spaces(size - st.actual) == r;
    } else if !f.right {
      assert Spaces(size - st.actual) == [];
    }
  }
}
