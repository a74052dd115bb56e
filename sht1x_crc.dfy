// The bit level of the SHT1x driver: the order in which bytes cross the data
// line (most significant bit first), the byte packing of `read_data`, and the
// CRC-8 that `verify_crc8` computes over the command and the data word.
module SHT1XCrc {

  /** The eight bits of a byte in the order they cross the data line. */
  function Bits(b: bv8): (r: seq<bool>)
    ensures |r| == 8
  {
    [b & 0x80 != 0, b & 0x40 != 0, b & 0x20 != 0, b & 0x10 != 0,
     b & 0x08 != 0, b & 0x04 != 0, b & 0x02 != 0, b & 0x01 != 0]
  }

  /** n zero bits. */
  function Zeros(n: nat): (r: seq<bool>)
    ensures |r| == n
  {
    seq(n, _ => false)
  }

  /** A byte is determined by its bits. */
  lemma BitsInjective(a: bv8, b: bv8)
    requires Bits(a) == Bits(b)
    ensures a == b
  {
    assert Bits(a)[0] == Bits(b)[0] && Bits(a)[1] == Bits(b)[1] && Bits(a)[2] == Bits(b)[2] && Bits(a)[3] == Bits(b)[3];
    assert Bits(a)[4] == Bits(b)[4] && Bits(a)[5] == Bits(b)[5] && Bits(a)[6] == Bits(b)[6] && Bits(a)[7] == Bits(b)[7];
  }

  /** `x << 1` moves every bit one place towards the top and brings in a zero. */
  lemma ShiftOut(x: bv8)
    ensures Bits(x << 1) == Bits(x)[1..] + [false]
  {
  }

  /** `(x << 1) | bit` moves every bit one place towards the top and brings in bit. */
  lemma ShiftIn(x: bv8, bit: bool)
    ensures Bits((x << 1) | (if bit then 1 else 0)) == Bits(x)[1..] + [bit]
  {
  }

  /** The bit `(x & 0x80) == 0x80` tests is the first to cross the line. */
  lemma TopBit(x: bv8)
    ensures ((x & 0x80) == 0x80) == Bits(x)[0]
  {
  }

  /** The byte whose bits, most significant first, are s. */
  function FromBits(s: seq<bool>): bv8
    requires |s| == 8
  {
    (if s[0] then 0x80 else 0) | (if s[1] then 0x40 else 0) | (if s[2] then 0x20 else 0) | (if s[3] then 0x10 else 0) |
    (if s[4] then 0x08 else 0) | (if s[5] then 0x04 else 0) | (if s[6] then 0x02 else 0) | (if s[7] then 0x01 else 0)
  }

  /** Eight bits make a byte with those bits. */
  lemma FromBitsRoundTrip(s: seq<bool>)
    requires |s| == 8
    ensures Bits(FromBits(s)) == s
  {
  }

  /** One more bit shifted in from the right of a byte holding the first k bits of s under zeros. */
  lemma ShiftInStep(x: bv8, y: bv8, s: seq<bool>, k: int)
    requires 0 <= k < |s| == 8
    requires Bits(x) == Zeros(8 - k) + s[..k]
    requires y == (x << 1) | (if s[k] then 1 else 0)
    ensures Bits(y) == Zeros(8 - (k + 1)) + s[..k + 1]
  {
    ShiftIn(x, s[k]);
    DropZero(8 - k, s[..k], s[k], Bits(x));
    assert s[..k] + [s[k]] == s[..k + 1];
  }

  /** Dropping the top zero and appending a bit: sequence bookkeeping for `ShiftInStep`. */
  lemma DropZero(n: nat, t: seq<bool>, b: bool, a: seq<bool>)
    requires 0 < n && a == Zeros(n) + t
    ensures a[1..] + [b] == Zeros(n - 1) + (t + [b])
  {
    assert a[1..] == Zeros(n - 1) + t;
  }

  /** The bits of a byte shift back into the byte. */
  lemma BitsRoundTrip(b: bv8)
    ensures FromBits(Bits(b)) == b
  {
    FromBitsRoundTrip(Bits(b));
    BitsInjective(FromBits(Bits(b)), b);
  }

  /** The high byte of a word: `value >> 8` stored in a `uint8_t`. */
  function Hi(w: bv16): bv8
  {
    (w >> 8) as bv8
  }

  /** The low byte of a word: `value & 0xff`. */
  function Lo(w: bv16): bv8
  {
    (w & 0xff) as bv8
  }

  /** `((uint16_t)hi << 8) | lo`: the word `read_data` returns. */
  function Word(hi: bv8, lo: bv8): (w: bv16)
    ensures Hi(w) == hi && Lo(w) == lo
  {
    ((hi as bv16) << 8) | (lo as bv16)
  }

  /** A word is the join of its two bytes. */
  lemma WordOfBytes(w: bv16)
    ensures Word(Hi(w), Lo(w)) == w
  {
  }

  /** The 16 bits of a word on the data line, high byte first. */
  function Bits16(w: bv16): (r: seq<bool>)
    ensures |r| == 16
  {
    Bits(Hi(w)) + Bits(Lo(w))
  }

  /** A word is determined by its bits. */
  lemma Bits16Injective(a: bv16, b: bv16)
    requires Bits16(a) == Bits16(b)
    ensures a == b
  {
    assert Bits16(a)[..8] == Bits(Hi(a)) && Bits16(b)[..8] == Bits(Hi(b));
    assert Bits16(a)[8..] == Bits(Lo(a)) && Bits16(b)[8..] == Bits(Lo(b));
    BitsInjective(Hi(a), Hi(b));
    BitsInjective(Lo(a), Lo(b));
    WordOfBytes(a);
    WordOfBytes(b);
  }

  // ----------- The CRC-8 -----------

  /**
   * One bit through the CRC register: the register shifts right and, when the bit
   * differs from the bit shifted out, 0x8C is XORed in. This is the CRC-8 with
   * polynomial x^8 + x^5 + x^4 + 1 computed in reflected form.
   */
  function CrcStep(reg: bv8, b: bool): bv8
  {
    if b != (reg & 1 == 1) then (reg >> 1) ^ 0x8C else reg >> 1
  }

  /** The register update of `verify_crc8` as written: shift right, then `|= 0x80` and `^= 0x0C` on a mismatch. */
  lemma SourceStep(reg: bv8, b: bool)
    ensures (var r := reg >> 1; if b != (reg & 0x01 == 0x01) then (r | 0x80) ^ 0x0C else r) == CrcStep(reg, b)
  {
  }

  /** The register after the bits s have passed through it, in order, from reg. */
  function Crc(reg: bv8, s: seq<bool>): bv8
    decreases |s|
  {
    if s == [] then reg else CrcStep(Crc(reg, s[..|s| - 1]), s[|s| - 1])
  }

  /** What `verify_crc8` runs through the register: the command, then the data word's high and low byte. */
  function Message(cmd: bv8, value: bv16): (r: seq<bool>)
    ensures |r| == 24
  {
    Bits(cmd) + Bits16(value)
  }

  /** The CRC the sensor must send with `value` in answer to `cmd`. */
  function Crc8(cmd: bv8, value: bv16): bv8
  {
    Crc(0, Message(cmd, value))
  }

  /** The message is the three bytes `verify_crc8` stores in `xmit`, one after the other. */
  lemma MessageBytes(cmd: bv8, value: bv16, m: int)
    requires 0 <= m < 3
    ensures Message(cmd, value)[..8 * m + 8] == Message(cmd, value)[..8 * m] + Bits([cmd, Hi(value), Lo(value)][m])
  {
    var s := Message(cmd, value);
    assert s == Bits(cmd) + Bits(Hi(value)) + Bits(Lo(value));
    if m == 0 {
      assert s[..8] == Bits(cmd);
    } else if m == 1 {
      assert s[..8] == Bits(cmd);
      assert s[..16] == Bits(cmd) + Bits(Hi(value));
    } else {
      assert s[..16] == Bits(cmd) + Bits(Hi(value));
    }
  }

  /** Running a + b through the register is running a, then b from where a left it. */
  lemma {:induction false} CrcAppend(reg: bv8, a: seq<bool>, b: seq<bool>)
    ensures Crc(reg, a + b) == Crc(Crc(reg, a), b)
    decreases |b|
  {
    if b == [] {
      assert a + b == a;
    } else {
      var f := b[..|b| - 1];
      CrcAppend(reg, a, f);
      assert (a + b)[..|a + b| - 1] == a + f;
    }
  }

  /** For a given bit, different registers step to different registers. */
  lemma StepInjective(r1: bv8, r2: bv8, b: bool)
    requires r1 != r2
    ensures CrcStep(r1, b) != CrcStep(r2, b)
  {
  }

  /** From a given register, the two values of a bit step to different registers. */
  lemma StepSeparates(r: bv8, b: bool)
    ensures CrcStep(r, b) != CrcStep(r, !b)
  {
  }

  /** Different registers stay different through the same bits. */
  lemma {:induction false} CrcSeparates(r1: bv8, r2: bv8, s: seq<bool>)
    requires r1 != r2
    ensures Crc(r1, s) != Crc(r2, s)
    decreases |s|
  {
    if s != [] {
      CrcSeparates(r1, r2, s[..|s| - 1]);
      StepInjective(Crc(r1, s[..|s| - 1]), Crc(r2, s[..|s| - 1]), s[|s| - 1]);
    }
  }

  /** Messages that agree up to position p and differ there leave different registers from p + 1 on. */
  lemma DifferAt(msg: seq<bool>, msg': seq<bool>, p: int)
    requires |msg| == |msg'| && 0 <= p < |msg| && msg[..p] == msg'[..p] && msg[p] != msg'[p]
    ensures Crc(0, msg[..p + 1]) != Crc(0, msg'[..p + 1])
  {
    assert msg[..p + 1][..p] == msg[..p];
    assert msg'[..p + 1][..p] == msg'[..p];
    StepSeparates(Crc(0, msg[..p]), msg[p]);
  }

  /** Messages that differ at one place only leave different registers. */
  lemma DifferOnce(msg: seq<bool>, msg': seq<bool>, p: int)
    requires |msg| == |msg'| && 0 <= p < |msg| && msg[..p] == msg'[..p] && msg[p] != msg'[p]
    requires msg[p + 1..] == msg'[p + 1..]
    ensures Crc(0, msg) != Crc(0, msg')
  {
    DifferAt(msg, msg', p);
    assert msg == msg[..p + 1] + msg[p + 1..];
    assert msg' == msg'[..p + 1] + msg'[p + 1..];
    CrcAppend(0, msg[..p + 1], msg[p + 1..]);
    CrcAppend(0, msg'[..p + 1], msg'[p + 1..]);
    CrcSeparates(Crc(0, msg[..p + 1]), Crc(0, msg'[..p + 1]), msg[p + 1..]);
  }

  /**
   * Any single flipped bit changes the CRC: a message that differs in one bit from the
   * one the sensor computed its CRC over fails the comparison.
   */
  lemma SingleBitErrorDetected(msg: seq<bool>, p: int)
    requires 0 <= p < |msg|
    ensures Crc(0, msg) != Crc(0, msg[p := !msg[p]])
  {
    var msg' := msg[p := !msg[p]];
    assert msg[..p] == msg'[..p] && msg[p + 1..] == msg'[p + 1..];
    DifferOnce(msg, msg', p);
  }

  /** A data word received with one bit flipped on the line does not match the CRC sent with the word. */
  lemma DataBitFlipDetected(cmd: bv8, value: bv16, received: bv16, p: int)
    requires 0 <= p < 16 && Bits16(received) == Bits16(value)[p := !Bits16(value)[p]]
    ensures Crc8(cmd, received) != Crc8(cmd, value)
  {
    var m := Message(cmd, value);
    assert Message(cmd, received) == m[8 + p := !m[8 + p]];
    SingleBitErrorDetected(m, 8 + p);
  }

  /** The temperature and the humidity command. */
  const MEAS_TEMP_CMD: bv8 := 0x03
  const MEAS_RH_CMD: bv8 := 0x05

  /** Five zero bits through a cleared register leave it clear. */
  lemma FiveZeros(s: seq<bool>)
    requires |s| == 5 && forall i :: 0 <= i < 5 ==> !s[i]
    ensures Crc(0, s) == 0
  {
    assert s[..4][..3] == s[..3];
    assert s[..3][..2] == s[..2];
    assert s[..2][..1] == s[..1];
    assert s[..1][..0] == [];
    assert s[..5] == s;
    assert Crc(0, s[..1]) == 0;
    assert Crc(0, s[..2]) == 0;
    assert Crc(0, s[..3]) == 0;
    assert Crc(0, s[..4]) == 0;
  }

  /**
   * The CRC covers the command: a word and CRC sent in answer to the temperature
   * command never pass as the answer to the humidity command, and the other way round.
   * The two commands' bits first differ at bit 5, after which the registers hold 0xCA
   * and 0xAF.
   */
  lemma CommandsDiffer(value: bv16)
    ensures Crc8(MEAS_TEMP_CMD, value) != Crc8(MEAS_RH_CMD, value)
  {
    var a := Message(MEAS_TEMP_CMD, value);
    var b := Message(MEAS_RH_CMD, value);
    FiveZeros(a[..5]);
    FiveZeros(b[..5]);
    assert a[..6][..5] == a[..5] && b[..6][..5] == b[..5];
    assert a[..7][..6] == a[..6] && b[..7][..6] == b[..6];
    assert a[..8][..7] == a[..7] && b[..8][..7] == b[..7];
    assert Crc(0, a[..8]) == 0xCA && Crc(0, b[..8]) == 0xAF;
    assert a == a[..8] + Bits16(value) && b == b[..8] + Bits16(value);
    CrcAppend(0, a[..8], Bits16(value));
    CrcAppend(0, b[..8], Bits16(value));
    CrcSeparates(0xCA, 0xAF, Bits16(value));
  }

  // ----------- The loops of `read_data` and `verify_crc8` -----------

  /** The inner loop of `read_data`: eight bits shifted in, most significant first. */
  method ReadByte(bits: seq<bool>) returns (x: bv8)
    requires |bits| == 8
    ensures Bits(x) == bits && x == FromBits(bits)
  {
    x := 0;
    for k := 0 to 8
      invariant Bits(x) == Zeros(8 - k) + bits[..k]
    {
      ShiftInStep(x, (x << 1) | (if bits[k] then 1 else 0), bits, k);
      x := x << 1;
      if bits[k] {
        x := x | 0x01;
      }
    }
    assert Zeros(0) + bits[..8] == bits;
    FromBitsRoundTrip(bits);
    BitsInjective(x, FromBits(bits));
  }

  /**
   * One pass of a loop that tests the top bit of x and shifts x left into y: after k
   * passes over x0, the bit tested is bit k of x0 and the bits still to come are in order.
   */
  lemma ShiftStep(x0: bv8, k: int, x: bv8, y: bv8)
    requires 0 <= k < 8 && y == x << 1
    requires forall j :: 0 <= j < 8 - k ==> Bits(x)[j] == Bits(x0)[k + j]
    ensures ((x & 0x80) == 0x80) == Bits(x0)[k]
    ensures forall j :: 0 <= j < 8 - (k + 1) ==> Bits(y)[j] == Bits(x0)[k + 1 + j]
  {
    TopBit(x);
    ShiftOut(x);
  }

  /** One pass of the inner loop of `verify_crc8`: bit k of x0 goes through the register. */
  lemma CrcBitStep(reg0: bv8, x0: bv8, k: int, reg: bv8, b: bool)
    requires 0 <= k < 8 && b == Bits(x0)[k]
    requires reg == Crc(reg0, Bits(x0)[..k])
    ensures (var r := reg >> 1; if b != (reg & 0x01 == 0x01) then (r | 0x80) ^ 0x0C else r) == Crc(reg0, Bits(x0)[..k + 1])
  {
    assert Bits(x0)[..k + 1][..k] == Bits(x0)[..k];
    SourceStep(reg, b);
  }

  /** The inner loop of `verify_crc8`: one byte through the register, most significant bit first. */
  method CrcByte(reg0: bv8, x0: bv8) returns (reg: bv8)
    ensures reg == Crc(reg0, Bits(x0))
  {
    reg := reg0;
    var x := x0;
    for k := 0 to 8
      invariant reg == Crc(reg0, Bits(x0)[..k])
      invariant forall j :: 0 <= j < 8 - k ==> Bits(x)[j] == Bits(x0)[k + j]
    {
      ShiftStep(x0, k, x, x << 1);
      var b := (x & 0x80) == 0x80;
      var b0 := (reg & 0x01) == 0x01;
      CrcBitStep(reg0, x0, k, reg, b);
      reg := reg >> 1;
      if b != b0 {
        reg := reg | 0x80;
        reg := reg ^ 0x0C;
      }
      x := x << 1;
    }
    assert Bits(x0)[..8] == Bits(x0);
  }
}
