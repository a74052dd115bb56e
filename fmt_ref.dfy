// `FmtRef`: a reference to a numeric field inside a NUL-terminated text
// template such as "T=+00.0C". The field's position, width and format byte are
// read off the template itself: an optional sign, then digits or '?' with at
// most one decimal point. Assigning a number formats it into that field.
module FmtRef {
  import opened FmtUtil
  import opened FixNumUtil
  import opened FixNum
  import opened FixNumFormat

  /** The text holds a NUL at or after index i, so every scan from i stops. */
  predicate NulAfter(s: seq<char>, i: nat)
  {
    exists j :: i <= j < |s| && s[j] == '\0'
  }

  lemma NulAfterNext(s: seq<char>, i: nat)
    requires NulAfter(s, i) && i < |s| && s[i] != '\0'
    ensures NulAfter(s, i + 1)
  {
    var j :| i <= j < |s| && s[j] == '\0';
    assert i + 1 <= j;
  }

  // ----------- find -----------

  /** The first index at or after i holding `tag` or the NUL terminator. */
  function FindFrom(s: seq<char>, i: nat, tag: char): (r: nat)
    requires NulAfter(s, i)
    ensures i <= r < |s| && (s[r] == '\0' || s[r] == tag)
    ensures forall j :: i <= j < r ==> s[j] != '\0' && s[j] != tag
    decreases |s| - i
  {
    if s[i] == '\0' || s[i] == tag then i
    else
      NulAfterNext(s, i);
      FindFrom(s, i + 1, tag)
  }

  /** `FmtRef::find`. */
  method Find(buf: array<char>, pos: nat, tag: char) returns (r: nat)
    requires NulAfter(buf[..], pos)
    ensures r == FindFrom(buf[..], pos, tag)
  {
    ghost var s := buf[..];
    r := pos;
    while true
      invariant pos <= r <= FindFrom(s, pos, tag)
      decreases FindFrom(s, pos, tag) - r
    {
      var c := buf[r];
      if c == '\0' || c == tag {
        return;
      }
      r := r + 1;
    }
  }

  // ----------- init -----------

  /** A character `init` accepts as the start of a field; the NUL ends the search too. */
  predicate FieldStart(c: char)
  {
    c == '\0' || c == '.' || c == '+' || c == '-' || c == '?' || IsDigit(c)
  }

  /** A digit position of a field: a digit or the placeholder '?'. */
  predicate FieldDigit(c: char)
  {
    c == '?' || IsDigit(c)
  }

  /** Whether the scan of the field body takes c, given whether a '.' was already taken. */
  predicate Takes(c: char, dot: bool)
  {
    c != '\0' && ((c == '.' && !dot) || FieldDigit(c))
  }

  /** The first index at or after i where a field may start. */
  function SkipFrom(s: seq<char>, i: nat): (r: nat)
    requires NulAfter(s, i)
    ensures i <= r < |s| && FieldStart(s[r])
    ensures forall j :: i <= j < r ==> !FieldStart(s[j])
    decreases |s| - i
  {
    if FieldStart(s[i]) then i
    else
      NulAfterNext(s, i);
      SkipFrom(s, i + 1)
  }

  /** Where the body scan stops, and how many digit positions it took after the '.'. */
  datatype Scan = Scan(end: nat, frac: nat)

  /** The body loop of `init` from index i, `dot` telling whether a '.' was already taken. */
  function ScanBody(s: seq<char>, i: nat, dot: bool): (r: Scan)
    requires NulAfter(s, i)
    ensures i <= r.end < |s|
    decreases |s| - i
  {
    if !Takes(s[i], dot) then Scan(i, 0)
    else
      NulAfterNext(s, i);
      var rest := ScanBody(s, i + 1, dot || s[i] == '.');
      if s[i] == '.' || !dot then rest else Scan(rest.end, rest.frac + 1)
  }

  /** `_fmt++` applied n times. */
  function Bump(fmt: bv8, n: nat): bv8
  {
    if n == 0 then fmt else Bump(fmt, n - 1) + 1
  }

  lemma BumpNext(fmt: bv8, n: nat)
    ensures Bump(fmt, n + 1) == Bump(fmt, n) + 1
  {
  }

  /** Counting one more modulo 256. */
  lemma ModNext(a: int, b: int)
    requires a == b % 256
    ensures (a + 1) % 256 == (b + 1) % 256
  {
  }

  /** The fields `_pos`, `_size` and `_fmt` as `init` leaves them. */
  datatype Ref = Ref(pos: nat, size: nat, fmt: bv8)

  /** The flag bits `init` sets from the sign and the first character after it. */
  function Flags(sign: bool, c: char): bv8
  {
    (if sign then FMT_SIGN else 0) | (if c == '0' then FMT_ZERO else 0) | (if c == '9' then FMT_RIGHT else 0)
  }

  /** Index of the first body character: past the sign, if any. */
  function BodyStart(s: seq<char>, start: nat): (q: nat)
    requires NulAfter(s, start)
    ensures NulAfter(s, q) && q < |s|
  {
    var p := SkipFrom(s, start);
    if s[p] == '+' || s[p] == '-' then NulAfterNext(s, p); p + 1 else p
  }

  /** `init(pos)`: the field found at or after `start`; the size counter is 8 bits wide. */
  function Init(s: seq<char>, start: nat): Ref
    requires NulAfter(s, start)
  {
    var p := SkipFrom(s, start);
    var q := BodyStart(s, start);
    var sc := ScanBody(s, q, false);
    Ref(p, (sc.end - p) % 256, Bump(Flags(q != p, s[q]), sc.frac))
  }

  /** No '.' among s[i..e). */
  predicate NoDot(s: seq<char>, i: nat, e: nat)
    requires i <= e <= |s|
  {
    forall j :: i <= j < e ==> s[j] != '.'
  }

  /**
   * The body scan takes digit positions and at most one '.', and stops at the first
   * character it cannot take; the fraction count is the number of digit positions
   * after the '.'.
   */
  lemma {:induction false} ScanShape(s: seq<char>, i: nat, dot: bool)
    requires NulAfter(s, i)
    ensures var r := ScanBody(s, i, dot);
      && (forall j :: i <= j < r.end ==> s[j] == '.' || FieldDigit(s[j]))
      && !Takes(s[r.end], dot || !NoDot(s, i, r.end))
      && (dot ==> NoDot(s, i, r.end) && r.frac == r.end - i)
      && (!dot && NoDot(s, i, r.end) ==> r.frac == 0)
      && (!dot ==> forall k :: i <= k < r.end && s[k] == '.' ==>
            NoDot(s, i, k) && NoDot(s, k + 1, r.end) && r.frac == r.end - k - 1)
    decreases |s| - i
  {
    var r := ScanBody(s, i, dot);
    if Takes(s[i], dot) {
      NulAfterNext(s, i);
      var dot' := dot || s[i] == '.';
      ScanShape(s, i + 1, dot');
      var rest := ScanBody(s, i + 1, dot');
      assert r.end == rest.end;
      if s[i] == '.' {
        assert r == rest;
      }
    }
  }

  /** Counting up to 15 from flags with a zero precision nibble leaves the flags alone. */
  lemma {:induction false} BumpKeepsFlags(flags: bv8, n: nat)
    requires flags & FMT_PREC == 0 && n <= 15
    ensures Bump(flags, n) & 0xf0 == flags & 0xf0
    ensures Prec(Bump(flags, n)) == n
  {
    if n > 0 {
      BumpKeepsFlags(flags, n - 1);
      var x := Bump(flags, n - 1);
      NibbleStep(x);
    }
  }

  lemma NibbleStep(x: bv8)
    requires x & 0x0f < 0x0f
    ensures (x + 1) & 0xf0 == x & 0xf0
    ensures ((x + 1) & 0x0f) as nat == (x & 0x0f) as nat + 1
  {
  }

  /**
   * `init` starts the field at the first possible character; the flags record a sign,
   * a leading '0' (zero fill) and a leading '9' (right alignment); and, with at most
   * fifteen fraction digits, the precision nibble counts them.
   */
  lemma InitFormat(s: seq<char>, start: nat)
    requires NulAfter(s, start)
    requires ScanBody(s, BodyStart(s, start), false).frac <= 15
    ensures var r, q := Init(s, start), BodyStart(s, start);
      && start <= r.pos && FieldStart(s[r.pos])
      && (forall j :: start <= j < r.pos ==> !FieldStart(s[j]))
      && (HasSign(r.fmt) <==> s[r.pos] == '+' || s[r.pos] == '-')
      && (HasZero(r.fmt) <==> s[q] == '0')
      && (HasRight(r.fmt) <==> s[q] == '9')
      && Prec(r.fmt) == ScanBody(s, q, false).frac
  {
    var p, q := SkipFrom(s, start), BodyStart(s, start);
    var flags := Flags(q != p, s[q]);
    assert flags & FMT_PREC == 0;
    var sc := ScanBody(s, q, false);
    BumpKeepsFlags(flags, sc.frac);
    var f := Bump(flags, sc.frac);
    assert f & FMT_SIGN == (f & 0xf0) & FMT_SIGN;
    assert f & FMT_ZERO == (f & 0xf0) & FMT_ZERO;
    assert f & FMT_RIGHT == (f & 0xf0) & FMT_RIGHT;
  }

  /**
   * Without wrap-around of the size counter, the field is s[pos..pos + size): an
   * optional sign, then digit positions and at most one '.'; the next field is
   * searched from its end, which still lies before the terminating NUL.
   */
  lemma InitLayout(s: seq<char>, start: nat)
    requires NulAfter(s, start)
    requires ScanBody(s, BodyStart(s, start), false).end - SkipFrom(s, start) < 256
    ensures var r, q := Init(s, start), BodyStart(s, start);
      && r.pos + r.size == ScanBody(s, q, false).end
      && q - r.pos <= 1 && (q == r.pos + 1 <==> s[r.pos] == '+' || s[r.pos] == '-')
      && (forall j :: q <= j < r.pos + r.size ==> s[j] == '.' || FieldDigit(s[j]))
      && !Takes(s[r.pos + r.size], !NoDot(s, q, r.pos + r.size))
      && NulAfter(s, r.pos + r.size)
  {
    var q := BodyStart(s, start);
    ScanShape(s, q, false);
  }

  // ----------- the class -----------

  /** `init`, as a scan of the array from `start`. */
  method ScanField(buf: array<char>, start: nat) returns (pos: nat, size: nat, fmt: bv8)
    requires NulAfter(buf[..], start)
    ensures Ref(pos, size, fmt) == Init(buf[..], start)
  {
    ghost var s := buf[..];
    var p := start;
    while !FieldStart(buf[p])
      invariant start <= p <= SkipFrom(s, start)
      decreases SkipFrom(s, start) - p
    {
      p := p + 1;
    }
    pos := p;
    size := 0;
    fmt := 0;
    var c := buf[p];
    if c == '+' || c == '-' {
      fmt := fmt | FMT_SIGN;
      size := size + 1;
      NulAfterNext(s, p);
      p := p + 1;
      c := buf[p];
    }
    if c == '0' {
      fmt := fmt | FMT_ZERO;
    }
    if c == '9' {
      fmt := fmt | FMT_RIGHT;
    }
    assert p == BodyStart(s, start);
    assert fmt == Flags(p != pos, s[p]);
    size, fmt := ScanBodyLoop(buf, p, size, fmt);
  }

  /**
   * The body loop of `init` from index q, with the size and format counted so far:
   * the size counts each taken character modulo 256, the format counts the digit
   * positions after the '.'.
   */
  method ScanBodyLoop(buf: array<char>, q: nat, size0: nat, fmt0: bv8) returns (size: nat, fmt: bv8)
    requires NulAfter(buf[..], q) && size0 < 256
    ensures size == (size0 + ScanBody(buf[..], q, false).end - q) % 256
    ensures fmt == Bump(fmt0, ScanBody(buf[..], q, false).frac)
  {
    ghost var s := buf[..];
    var p := q;
    size, fmt := size0, fmt0;
    var dot := false;
    var c := buf[p];
    ghost var frac := 0;
    while c != '\0'
      invariant q <= p < |s| && NulAfter(s, p) && c == s[p]
      invariant ScanBody(s, q, false) == Scan(ScanBody(s, p, dot).end, frac + ScanBody(s, p, dot).frac)
      invariant size == (size0 + p - q) % 256 && fmt == Bump(fmt0, frac)
      decreases |s| - p
    {
      if c == '.' && !dot {
        dot := true;
      } else if c == '?' || IsDigit(c) {
        if dot {
          BumpNext(fmt0, frac);
          fmt := fmt + 1;
          frac := frac + 1;
        }
      } else {
        break;
      }
      ModNext(size, size0 + p - q);
      size := (size + 1) % 256;
      NulAfterNext(s, p);
      p := p + 1;
      c := buf[p];
    }
  }

  /** `FmtRef`: the field of a template buffer that assignments format into. */
  class FmtRef {
    const buf: array<char>
    var pos: nat
    var size: nat
    var fmt: bv8

    /** `FmtRef(buf)`: the first field of the template. */
    constructor First(buf: array<char>)
      requires NulAfter(buf[..], 0)
      ensures this.buf == buf && Ref(pos, size, fmt) == Init(buf[..], 0)
    {
      this.buf := buf;
      var p, n, f := ScanField(buf, 0);
      pos, size, fmt := p, n, f;
    }

    /** `FmtRef(prev)`: the field after `prev`, searched from the end of `prev`. */
    constructor Next(prev: FmtRef)
      requires NulAfter(prev.buf[..], prev.pos + prev.size)
      ensures buf == prev.buf && Ref(pos, size, fmt) == Init(prev.buf[..], prev.pos + prev.size)
    {
      buf := prev.buf;
      var p, n, f := ScanField(prev.buf, prev.pos + prev.size);
      pos, size, fmt := p, n, f;
    }

    /** `FmtRef(buf, tag)`: the first field at or after the first `tag` character. */
    constructor Tagged(buf: array<char>, tag: char)
      requires NulAfter(buf[..], 0)
      ensures this.buf == buf && Ref(pos, size, fmt) == Init(buf[..], FindFrom(buf[..], 0, tag))
    {
      this.buf := buf;
      var at := Find(buf, 0, tag);
      var p, n, f := ScanField(buf, at);
      pos, size, fmt := p, n, f;
    }

    /** `operator =(FixNum)`: format x into exactly the referenced field. */
    method Assign(x: FixNum)
      requires WellFormed(x) && pos + size <= buf.Length
      modifies buf
      ensures buf[pos..pos + size] == FixNumFormat.Field(x, size, fmt)
      ensures buf[..pos] == old(buf[..pos]) && buf[pos + size..] == old(buf[pos + size..])
    {
      var _ := FormatNumber(x, buf, pos, size, fmt);
    }

    /** `operator =(T)`: an integer is formatted as a number of precision 0. */
    method AssignInt(t: IntType, x: int)
      requires InType(t, x) && pos + size <= buf.Length
      modifies buf
      ensures buf[pos..pos + size] == FixNumFormat.Field(FixNum(t, 0, x), size, fmt)
      ensures buf[..pos] == old(buf[..pos]) && buf[pos + size..] == old(buf[pos + size..])
    {
      Assign(FixNum(t, 0, x));
    }
  }

  /** A signed, zero-filled template with one fraction digit. */
  lemma SignedTemplateExample()
    ensures var s := "T=+00.0C\0"; NulAfter(s, 0) && Init(s, 0) == Ref(2, 5, FMT_SIGN | FMT_ZERO | 1)
  {
    var s := "T=+00.0C\0";
    assert s[8] == '\0';
    assert NulAfter(s, 7);
    assert SkipFrom(s, 0) == 2 by {
      assert SkipFrom(s, 1) == SkipFrom(s, 2) == 2;
    }
    assert BodyStart(s, 0) == 3;
    assert ScanBody(s, 7, true) == Scan(7, 0);
    assert ScanBody(s, 6, true) == Scan(7, 1);
    assert ScanBody(s, 5, false) == Scan(7, 1);
    assert ScanBody(s, 4, false) == Scan(7, 1);
    assert ScanBody(s, 3, false) == Scan(7, 1);
    assert Bump(Flags(true, '0'), 1) == FMT_SIGN | FMT_ZERO | 1;
  }

  /** Two right-aligned fields of one template, the second found from the end of the first. */
  lemma ChainedTemplateExample()
    ensures var s := "99:99\0"; NulAfter(s, 0) && Init(s, 0) == Ref(0, 2, FMT_RIGHT) && Init(s, 2) == Ref(3, 2, FMT_RIGHT)
  {
    var s := "99:99\0";
    assert s[5] == '\0';
    assert NulAfter(s, 4);
    assert ScanBody(s, 2, false) == Scan(2, 0);
    assert ScanBody(s, 1, false) == Scan(2, 0);
    assert ScanBody(s, 0, false) == Scan(2, 0);
    assert SkipFrom(s, 2) == 3;
    assert ScanBody(s, 5, false) == Scan(5, 0);
    assert ScanBody(s, 4, false) == Scan(5, 0);
    assert ScanBody(s, 3, false) == Scan(5, 0);
  }

  /** A tagged field: the search starts at the tag, the field of '?' placeholders follows it. */
  lemma TaggedTemplateExample()
    ensures var s := "a=1 b=?.?\0"; NulAfter(s, 0) && FindFrom(s, 0, 'b') == 4 && Init(s, 4) == Ref(6, 3, 1)
  {
    var s := "a=1 b=?.?\0";
    assert s[9] == '\0';
    assert NulAfter(s, 8);
    assert FindFrom(s, 0, 'b') == 4 by {
      assert FindFrom(s, 3, 'b') == 4;
      assert FindFrom(s, 2, 'b') == 4;
      assert FindFrom(s, 1, 'b') == 4;
    }
    assert SkipFrom(s, 4) == 6 by {
      assert SkipFrom(s, 5) == 6;
    }
    assert BodyStart(s, 4) == 6;
    assert ScanBody(s, 9, true) == Scan(9, 0);
    assert ScanBody(s, 8, true) == Scan(9, 1);
    assert ScanBody(s, 7, false) == Scan(9, 1);
    assert ScanBody(s, 6, false) == Scan(9, 1);
    assert Bump(Flags(false, '?'), 1) == 1;
    assert Init(s, 4) == Ref(6, 3, 1);
  }

  /** Sixteen fraction digits carry out of the precision nibble into the sign flag. */
  lemma FractionOverflowsIntoSign()
    ensures Bump(0, 16) == FMT_SIGN && Prec(Bump(0, 16)) == 0 && HasSign(Bump(0, 16))
  {
    BumpKeepsFlags(0, 15);
    assert Bump(0, 15) == 0x0f;
  }
}
