// `FixNum::format` and `FixNum::Buf`: a valid number is rescaled to the precision
// in the format byte and written by `formatDecimal`; an invalid one is written by
// `formatInvalid`. `Buf` formats into its own array and terminates it with NUL.
module FixNumFormat {
  import opened CInt
  import opened FixNumUtil
  import opened FmtUtil
  import opened FixNum

  /** The mantissa `format` hands to `formatDecimal`: rescaled to the format's precision in T. */
  function Shown(a: FixNum, fmt: bv8): (r: int)
    requires WellFormed(a) && Valid(a)
    ensures MinValue(a.t) <= r <= MaxValue(a.t)
    ensures -0x7fff_ffff <= r <= 0x7fff_ffff
  {
    LimitsShape(a.t);
    Scale(a.t, a.mantissa, a.prec, Prec(fmt))
  }

  /** The characters `format(pos, size, fmt)` leaves in pos[0..size). */
  function Field(a: FixNum, size: nat, fmt: bv8): seq<char>
    requires WellFormed(a)
  {
    if Valid(a) then Formatted(Shown(a, fmt), size, Decode(fmt)) else InvalidField(size, fmt)
  }

  /** The count `format` returns. */
  function FieldSize(a: FixNum, size: nat, fmt: bv8): nat
    requires WellFormed(a)
  {
    if Valid(a) then FormattedSize(Shown(a, fmt), size, Decode(fmt)) else size
  }

  /** `format(pos, size, fmt)`. */
  method FormatNumber(a: FixNum, pos: array<char>, off: nat, size: nat, fmt: bv8) returns (actualSize: nat)
    requires WellFormed(a)
    requires off + size <= pos.Length
    modifies pos
    ensures actualSize == FieldSize(a, size, fmt)
    ensures pos[off..off + size] == Field(a, size, fmt)
    ensures pos[..off] == old(pos[..off]) && pos[off + size..] == old(pos[off + size..])
  {
    if Valid(a) {
      actualSize := FormatDecimal(Shown(a, fmt), pos, off, size, fmt);
    } else {
      actualSize := FormatInvalid(pos, off, size, fmt);
    }
  }

  /** `Buf` trims the requested size to its array, leaving room for the NUL. */
  function Trim(t: IntType, size: nat): nat
  {
    if size > BufSize(t) - 1 then BufSize(t) - 1 else size
  }

  /** The text a `Buf` holds before its NUL: the whole field when right-aligned, else the counted part. */
  function BufText(a: FixNum, size: nat, fmt: bv8): seq<char>
    requires WellFormed(a)
  {
    var s := Trim(a.t, size);
    var field := Field(a, s, fmt);
    var n := FieldSize(a, s, fmt);
    if HasRight(fmt) || n > |field| then field else field[..n]
  }

  /** The formatted field has the requested size and the returned count fits in it. */
  lemma FieldLength(a: FixNum, size: nat, fmt: bv8)
    requires WellFormed(a)
    ensures |Field(a, size, fmt)| == size && FieldSize(a, size, fmt) <= size
  {
    if Valid(a) {
      FormattedLength(Shown(a, fmt), size, Decode(fmt));
    }
  }

  /**
   * The text of a left-aligned `Buf` is the field without its right padding; the text
   * always fits in the array with its NUL.
   */
  lemma BufTextIsFieldWithoutPadding(a: FixNum, size: nat, fmt: bv8)
    requires WellFormed(a)
    ensures |BufText(a, size, fmt)| <= Trim(a.t, size) < BufSize(a.t)
    ensures !HasRight(fmt) ==>
      Field(a, Trim(a.t, size), fmt) == BufText(a, size, fmt) + Spaces(Trim(a.t, size) - |BufText(a, size, fmt)|)
  {
    var s := Trim(a.t, size);
    FieldLength(a, s, fmt);
    if Valid(a) {
      LeftAligned(Shown(a, fmt), s, Decode(fmt));
    } else {
      assert Field(a, s, fmt)[..s] + Spaces(0) == Field(a, s, fmt);
    }
  }

  /**
   * The text of a `Buf` holding a valid number has a '-' exactly when the number is
   * negative and its field shows the sign (`MinusShown`).
   */
  lemma BufSign(a: FixNum, size: nat, fmt: bv8)
    requires WellFormed(a) && Valid(a)
    ensures Shown(a, fmt) >= 0 ==> '-' !in BufText(a, size, fmt)
    ensures Shown(a, fmt) < 0 ==>
      ('-' in BufText(a, size, fmt) <==> MinusShown(Shown(a, fmt), Trim(a.t, size), Decode(fmt)))
  {
    var s := Trim(a.t, size);
    FormattedSign(Shown(a, fmt), s, Decode(fmt));
    BufTextIsFieldWithoutPadding(a, size, fmt);
    if !HasRight(fmt) {
      var text := BufText(a, size, fmt);
      assert '-' !in Spaces(s - |text|);
      assert '-' in Field(a, s, fmt) <==> '-' in text;
    }
  }

  /**
   * A valid number formatted at its own precision, with room for all its digits, shows
   * exactly the digits of its mantissa, in a `Buf` as in the field, with a '-' only
   * when it is negative, and then whenever `MinusShown` leaves room for it.
   */
  lemma BufShowsMantissa(a: FixNum, size: nat, fmt: bv8)
    requires WellFormed(a) && Valid(a) && Prec(fmt) == a.prec
    requires Run(Trim(a.t, size), a.mantissa, Trim(a.t, size), Decode(fmt)).x == 0
    ensures DigitsValue(BufText(a, size, fmt)) == Abs(a.mantissa)
    ensures a.mantissa >= 0 ==> '-' !in BufText(a, size, fmt)
    ensures a.mantissa < 0 ==>
      ('-' in BufText(a, size, fmt) <==> MinusShown(a.mantissa, Trim(a.t, size), Decode(fmt)))
  {
    BufSign(a, size, fmt);
    var s := Trim(a.t, size);
    assert Shown(a, fmt) == a.mantissa;
    FormattedFits(a.mantissa, s, Decode(fmt));
    BufTextIsFieldWithoutPadding(a, size, fmt);
    var text := BufText(a, size, fmt);
    if !HasRight(fmt) {
      var sp := Spaces(s - |text|);
      DigitsAppend(text, sp);
      SpacesHaveNoDigits(s - |text|);
      assert Pow10(NumDigits(sp)) == 1;
      MulOne(DigitsValue(text), Pow10(NumDigits(sp)));
    }
  }

  /** `FixNum<T,prec>::Buf`: a NUL-terminated text in an array of `bufSize` characters. */
  class Buf {
    var buf: array<char>

    /** `Buf(num, size, fmt)`. */
    constructor(num: FixNum, size: nat, fmt: bv8)
      requires WellFormed(num)
      ensures fresh(buf) && buf.Length == BufSize(num.t)
      ensures |BufText(num, size, fmt)| < buf.Length
      ensures buf[..|BufText(num, size, fmt)|] == BufText(num, size, fmt)
      ensures buf[|BufText(num, size, fmt)|] == '\0'
    {
      var s := size;
      if s > BufSize(num.t) - 1 {
        s := BufSize(num.t) - 1;
      }
      var b := new char[BufSize(num.t)](_ => '\0');
      var actualSize := FormatNumber(num, b, 0, s, fmt);
      FieldLength(num, s, fmt);
      BufTextIsFieldWithoutPadding(num, size, fmt);
      assert b[..s] == Field(num, s, fmt);
      if HasRight(fmt) {
        b[s] := '\0';
      } else {
        b[actualSize] := '\0';
        assert b[..actualSize] == Field(num, s, fmt)[..actualSize];
      }
      buf := b;
    }
  }

  /** Worked fields of the number types the sensors use. */
  lemma FormatExamples()
    ensures BufText(FixNum(Int16, 1, 235), 7, 0x01) == "23.5"
  {
    assert Decode(0x01) == FmtUtil.Format(2, false, false, false);
  }

  /** A negative number below 1 keeps its leading zero and its sign. */
  lemma FormatNegativeExample()
    ensures BufText(FixNum(Int16, 1, -5), 7, 0x01) == "-0.5"
  {
    assert Decode(0x01) == FmtUtil.Format(2, false, false, false);
  }

  /** The invalid value of a type is shown as question marks around the point. */
  lemma FormatInvalidExample()
    ensures BufText(FixNum(Int16, 1, 0x7fff), 7, 0x01) == "?????.?"
  {
    assert Decode(0x01) == FmtUtil.Format(2, false, false, false);
  }
}
