// `FixNumParser<T>`: a character-at-a-time recogniser of decimal numbers
// ([sign] digits [. digits]) that accumulates the digits into a mantissa of
// type T, saturating at maxValue, and counts the fraction digits (at most six).
module FixNumParse {
  import opened CInt
  import opened FixNumUtil
  import opened FmtUtil
  import opened FixNum

  datatype Phase = Start | IntPart | FracPart

  /** The value `parse` returns for one character. */
  datatype Result = Bad | Num | Done

  /** The parser's fields: `_state`, `_neg`, `_ok`, `_mantissa`, `_prec`. */
  datatype PState = PState(phase: Phase, neg: bool, ok: bool, mantissa: int, prec: nat)

  /** The mantissa above which another digit saturates: (maxValue - 9) / 10. */
  function DigitBound(t: IntType): nat
  {
    (MaxValue(t) - 9) / 10
  }

  /** The end of a number: back to START, DONE when a digit was seen and BAD otherwise. */
  function End(st: PState): (PState, Result)
  {
    (st.(phase := Start), if st.ok then Done else Bad)
  }

  /** `parse(ch)` as a function of the fields before the call. */
  function ParseStep(t: IntType, st: PState, ch: char): (PState, Result)
  {
    match st.phase
    case Start =>
      if ch == '+' || ch == '-' || ch == '.' || IsDigit(ch) then
        (PState(if ch == '.' then FracPart else IntPart, ch == '-', IsDigit(ch),
                if IsDigit(ch) then DigitValue(ch) else 0, 0), Num)
      else (st, Bad)
    case IntPart =>
      if ch == '.' then (st.(phase := FracPart), Num) else Digit(t, st, ch)
    case FracPart =>
      Digit(t, st, ch)
  }

  /** The shared tail of INT_PART and FRAC_PART: accept a digit, or end the number. */
  function Digit(t: IntType, st: PState, ch: char): (PState, Result)
  {
    if !IsDigit(ch) || (st.phase == FracPart && st.prec >= MAX_PREC) then End(st)
    else
      var m := if st.mantissa > DigitBound(t) then MaxValue(t) else st.mantissa * 10 + DigitValue(ch);
      (st.(ok := true, mantissa := m, prec := if st.phase == FracPart then st.prec + 1 else st.prec), Num)
  }

  /** The fields after feeding a string, one `parse` call per character. */
  function Feed(t: IntType, st: PState, s: seq<char>): PState
    decreases |s|
  {
    if s == [] then st else Feed(t, ParseStep(t, st, s[0]).0, s[1..])
  }

  /** Every call while feeding s returns NUM. */
  predicate AllNum(t: IntType, st: PState, s: seq<char>)
    decreases |s|
  {
    s == [] || (ParseStep(t, st, s[0]).1 == Num && AllNum(t, ParseStep(t, st, s[0]).0, s[1..]))
  }

  predicate Digits(s: seq<char>)
  {
    forall k :: 0 <= k < |s| ==> IsDigit(s[k])
  }

  /** The fields the parser relies on: a mantissa within [0, maxValue] and at most six fraction digits. */
  predicate Sane(t: IntType, st: PState)
  {
    0 <= st.mantissa <= MaxValue(t) && st.prec <= MAX_PREC
  }

  // ----------- Properties of one step -----------

  /**
   * One call keeps the mantissa within [0, maxValue] (a digit past the bound saturates
   * instead of overflowing) and the fraction count within six.
   */
  lemma StepSane(t: IntType, st: PState, ch: char)
    requires Sane(t, st)
    ensures Sane(t, ParseStep(t, st, ch).0)
  {
    if st.phase != Start && IsDigit(ch) && st.mantissa <= DigitBound(t) {
      var b := DigitBound(t);
      assert 10 * b <= MaxValue(t) - 9;
      assert st.mantissa * 10 <= 10 * b;
    }
  }

  /**
   * The results of one call: in START exactly the characters '+', '-', '.' and the digits
   * start a number; DONE and BAD from the other states mean the number is over, with
   * DONE exactly when a digit was seen.
   */
  lemma StepResults(t: IntType, st: PState, ch: char)
    ensures st.phase == Start ==> (ParseStep(t, st, ch).1 != Bad <==> ch == '+' || ch == '-' || ch == '.' || IsDigit(ch))
    ensures st.phase == Start && ParseStep(t, st, ch).1 == Bad ==> ParseStep(t, st, ch).0 == st
    ensures st.phase != Start && ParseStep(t, st, ch).1 != Num ==>
      ParseStep(t, st, ch).0 == st.(phase := Start) && (ParseStep(t, st, ch).1 == Done <==> st.ok)
    ensures st.phase == FracPart && st.prec >= MAX_PREC && IsDigit(ch) ==> ParseStep(t, st, ch).1 != Num
  {
  }

  // ----------- Feeding strings -----------

  lemma {:induction false} FeedAppend(t: IntType, st: PState, a: seq<char>, b: seq<char>)
    ensures Feed(t, st, a + b) == Feed(t, Feed(t, st, a), b)
    ensures AllNum(t, st, a + b) <==> AllNum(t, st, a) && AllNum(t, Feed(t, st, a), b)
    decreases |a|
  {
    if a != [] {
      assert (a + b)[0] == a[0] && (a + b)[1..] == a[1..] + b;
      FeedAppend(t, ParseStep(t, st, a[0]).0, a[1..], b);
    } else {
      assert a + b == b;
    }
  }

  lemma {:induction false} AllDigitsCount(s: seq<char>)
    requires Digits(s)
    ensures NumDigits(s) == |s|
  {
    if s != [] {
      AllDigitsCount(s[1..]);
    }
  }

  /**
   * Digits fed in INT_PART or FRAC_PART accumulate left to right: the mantissa m becomes
   * m * 10^n + value(s), each fraction digit counts, and every call returns NUM, as long as
   * the result stays within the saturation bound and at most six fraction digits are seen.
   */
  lemma {:induction false} FeedDigits(t: IntType, st: PState, s: seq<char>)
    requires st.phase != Start && Digits(s) && st.mantissa >= 0
    requires st.phase == FracPart ==> st.prec + |s| <= MAX_PREC
    requires st.mantissa * Pow10(|s|) + DigitsValue(s) <= DigitBound(t)
    ensures AllNum(t, st, s)
    ensures Feed(t, st, s) == st.(ok := st.ok || s != [], mantissa := st.mantissa * Pow10(|s|) + DigitsValue(s),
                                   prec := if st.phase == FracPart then st.prec + |s| else st.prec)
    decreases |s|
  {
    if s != [] {
      var m, n, d := st.mantissa, |s|, DigitValue(s[0]);
      var p := Pow10(n - 1);
      AllDigitsCount(s[1..]);
      assert DigitsValue(s) == d * p + DigitsValue(s[1..]);
      assert Pow10(n) == 10 * p;
      DigitAccumulate(m, d, p, DigitsValue(s[1..]));
      var st1 := ParseStep(t, st, s[0]).0;
      assert st1 == st.(ok := true, mantissa := m * 10 + d, prec := if st.phase == FracPart then st.prec + 1 else st.prec);
      FeedDigits(t, st1, s[1..]);
    }
  }

  lemma DigitAccumulate(m: int, d: int, p: int, rest: int)
    requires m >= 0 && p >= 1
    ensures (m * 10 + d) * p + rest == m * (10 * p) + (d * p + rest)
    ensures m <= m * (10 * p)
  {
  }

  /**
   * `[+|-]digits` followed by a character that is neither a digit nor '.': every character
   * of the number returns NUM, the mantissa is the value of the digits, and the terminator
   * returns DONE and restarts the parser.
   */
  lemma ParseInteger(t: IntType, st: PState, sign: seq<char>, ip: seq<char>, end: char)
    requires st.phase == Start
    requires sign == [] || sign == ['+'] || sign == ['-']
    requires ip != [] && Digits(ip) && DigitsValue(ip) <= DigitBound(t)
    requires !IsDigit(end) && end != '.'
    ensures var fin := Feed(t, st, sign + ip);
      && AllNum(t, st, sign + ip)
      && fin == PState(IntPart, sign == ['-'], true, DigitsValue(ip), 0)
      && ParseStep(t, fin, end) == (fin.(phase := Start), Done)
  {
    IntegerPrefix(t, st, sign, ip);
  }

  lemma IntegerPrefix(t: IntType, st: PState, sign: seq<char>, ip: seq<char>)
    requires st.phase == Start
    requires sign == [] || sign == ['+'] || sign == ['-']
    requires ip != [] && Digits(ip) && DigitsValue(ip) <= DigitBound(t)
    ensures AllNum(t, st, sign + ip)
    ensures Feed(t, st, sign + ip) == PState(IntPart, sign == ['-'], true, DigitsValue(ip), 0)
  {
    var s0 := PState(IntPart, sign == ['-'], false, 0, 0);
    FeedDigits(t, s0, ip);
    assert Pow10(|ip|) * 0 == 0;
    if sign == [] {
      assert sign + ip == ip;
      assert ParseStep(t, st, ip[0]) == ParseStep(t, s0, ip[0]);
      assert Feed(t, st, ip) == Feed(t, s0, ip);
      assert AllNum(t, st, ip) == AllNum(t, s0, ip);
    } else {
      FeedAppend(t, st, sign, ip);
    }
  }

  /**
   * `[+|-]digits.digits` with at most six fraction digits, followed by a non-digit: the
   * mantissa is the value of all the digits, the precision is the number of fraction
   * digits, and the terminator returns DONE. With six fraction digits a seventh digit
   * ends the number too.
   */
  lemma ParseDecimal(t: IntType, st: PState, sign: seq<char>, ip: seq<char>, fp: seq<char>, end: char)
    requires st.phase == Start
    requires sign == [] || sign == ['+'] || sign == ['-']
    requires ip != [] && Digits(ip) && Digits(fp) && |fp| <= MAX_PREC
    requires DigitsValue(ip) * Pow10(|fp|) + DigitsValue(fp) <= DigitBound(t)
    requires !IsDigit(end) || |fp| == MAX_PREC
    ensures var fin := Feed(t, st, sign + ip + ['.'] + fp);
      && AllNum(t, st, sign + ip + ['.'] + fp)
      && fin == PState(FracPart, sign == ['-'], true, DigitsValue(ip) * Pow10(|fp|) + DigitsValue(fp), |fp|)
      && ParseStep(t, fin, end) == (fin.(phase := Start), Done)
  {
    ScaledBound(DigitsValue(ip), Pow10(|fp|), DigitsValue(fp), DigitBound(t));
    IntegerPrefix(t, st, sign, ip);
    var a, tail := sign + ip, ['.'] + fp;
    var mid := Feed(t, st, a);
    ParseFraction(t, mid, fp, end);
    FeedAppend(t, st, a, tail);
    assert sign + ip + ['.'] + fp == a + tail;
    assert Feed(t, st, a + tail) == Feed(t, mid, tail);
    assert AllNum(t, st, a + tail);
  }

  lemma ScaledBound(v: int, p: int, f: int, b: int)
    requires v >= 0 && p >= 1 && f >= 0 && v * p + f <= b
    ensures v <= b
  {
    MulAtLeast(p, v);
  }

  /** The '.' and the fraction digits of `ParseDecimal`, fed from INT_PART. */
  lemma ParseFraction(t: IntType, mid: PState, fp: seq<char>, end: char)
    requires mid.phase == IntPart && mid.ok && mid.prec == 0 && mid.mantissa >= 0
    requires Digits(fp) && |fp| <= MAX_PREC
    requires mid.mantissa * Pow10(|fp|) + DigitsValue(fp) <= DigitBound(t)
    requires !IsDigit(end) || |fp| == MAX_PREC
    ensures var fin := Feed(t, mid, ['.'] + fp);
      && AllNum(t, mid, ['.'] + fp)
      && fin == mid.(phase := FracPart, mantissa := mid.mantissa * Pow10(|fp|) + DigitsValue(fp), prec := |fp|)
      && ParseStep(t, fin, end) == (fin.(phase := Start), Done)
  {
    var afterDot := mid.(phase := FracPart);
    assert ParseStep(t, mid, '.') == (afterDot, Num);
    assert (['.'] + fp)[0] == '.' && (['.'] + fp)[1..] == fp;
    FeedDigits(t, afterDot, fp);
  }

  /** Feeding keeps the fields sane. */
  lemma {:induction false} FeedSane(t: IntType, st: PState, s: seq<char>)
    requires Sane(t, st)
    ensures Sane(t, Feed(t, st, s))
    decreases |s|
  {
    if s != [] {
      StepSane(t, st, s[0]);
      FeedSane(t, ParseStep(t, st, s[0]).0, s[1..]);
    }
  }

  // ----------- Conversion -----------

  /**
   * The conversion operator to `FixNum<T2,prec2>`: the signed mantissa in T (so a '-' wraps
   * around in uint8), converted from the parsed precision to prec2.
   */
  function ToFixNum(t: IntType, st: PState, t2: IntType, prec2: nat): (r: FixNum)
    requires Sane(t, st)
    ensures r.t == t2 && r.prec == prec2 && InType(t2, r.mantissa)
  {
    var x := Cast(t, if st.neg then -st.mantissa else st.mantissa);
    FixNum(t2, prec2, Convert(t, t2, x, st.prec, prec2))
  }

  /**
   * In a signed type, converting to the same type and the parsed precision gives the
   * signed parsed value.
   */
  lemma ToFixNumExact(t: IntType, st: PState)
    requires Sane(t, st) && t != UInt8
    ensures ToFixNum(t, st, t, st.prec).mantissa == if st.neg then -st.mantissa else st.mantissa
  {
    LimitsShape(t);
    var x := if st.neg then -st.mantissa else st.mantissa;
    assert InType(t, x);
    ConvertSamePrecision(t, t, x, st.prec);
  }

  /** Parsed numbers: "-12.5;" into fixnum16_1, and "-5;" into the unsigned 8-bit type, which wraps. */
  lemma ParseExamples(st: PState)
    requires st.phase == Start
    ensures Feed(Int16, st, "-12.5") == PState(FracPart, true, true, 125, 1)
    ensures ToFixNum(Int16, Feed(Int16, st, "-12.5"), Int16, 1).mantissa == -125
    ensures ParseStep(Int16, Feed(Int16, st, "-12.5"), ';').1 == Done
  {
    ParseDecimal(Int16, st, "-", "12", "5", ';');
    assert "-12.5" == "-" + "12" + ['.'] + "5";
    ToFixNumExact(Int16, Feed(Int16, st, "-12.5"));
  }

  /** A negative number parsed into an unsigned type wraps around. */
  lemma ParseUnsignedExample(st: PState)
    requires st.phase == Start
    ensures ToFixNum(UInt8, Feed(UInt8, st, "-5"), UInt8, 0).mantissa == 251
  {
    ParseInteger(UInt8, st, "-", "5", ';');
    assert "-5" == "-" + "5";
  }

  // ----------- The parser object -----------

  class FixNumParser {
    const t: IntType
    var phase: Phase
    var neg: bool
    var ok: bool
    var mantissa: int
    var prec: nat

    function Fields(): PState
      reads this
    {
      PState(phase, neg, ok, mantissa, prec)
    }

    predicate Valid()
      reads this
    {
      Sane(t, Fields())
    }

    /** A parser with zeroed fields, as a static or global object starts: in START. */
    constructor(t: IntType)
      ensures this.t == t && Valid() && phase == Start
    {
      this.t := t;
      phase := Start;
      neg := false;
      ok := false;
      mantissa := 0;
      prec := 0;
    }

    /** `reset()`: back to START; the other fields are kept. */
    method Reset()
      requires Valid()
      modifies this
      ensures Valid() && Fields() == old(Fields()).(phase := Start)
    {
      phase := Start;
    }

    /** `parse(ch)`: the switch over `_state`, with INT_PART falling through to FRAC_PART. */
    method Parse(ch: char) returns (r: Result)
      requires Valid()
      modifies this
      ensures Valid()
      ensures (Fields(), r) == ParseStep(t, old(Fields()), ch)
    {
      StepSane(t, Fields(), ch);
      if phase == Start {
        if ch == '+' || ch == '-' || ch == '.' || ('0' <= ch <= '9') {
          neg := ch == '-';
          ok := '0' <= ch <= '9';
          mantissa := if '0' <= ch <= '9' then ch as int - '0' as int else 0;
          prec := 0;
          phase := if ch == '.' then FracPart else IntPart;
          return Num;
        }
        return Bad;
      }
      if phase == IntPart && ch == '.' {
        phase := FracPart;
        return Num;
      }
      if '0' <= ch <= '9' {
        if phase == FracPart && prec >= MAX_PREC {
          phase := Start;
          return if ok then Done else Bad;
        }
        if phase == FracPart {
          prec := prec + 1;
        }
        ok := true;
        var digit := ch as int - '0' as int;
        if mantissa > Div(MaxValue(t) - 9, 10) {
          mantissa := MaxValue(t);
        } else {
          mantissa := mantissa * 10 + digit;
        }
        return Num;
      }
      phase := Start;
      r := if ok then Done else Bad;
    }
  }
}
