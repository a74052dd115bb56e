// The oversampling queue the DS18B20 and DS3231 temperature drivers share: 12
// slots of 16-bit raw readings, NO_VAL (`0x7fff`) marking an empty slot. A
// reading is written at the write index, which then moves on round the queue,
// and the number of samples saturates at 12; the value reported is the average
// of the samples, dropping the highest and the lowest one when there are more
// than two. The functions here are what the drivers' averaging loops compute
// over the slots in order.
module Oversampling {
  import opened CInt

  const QUEUE_SIZE: nat := 12
  /** `0x7fff`, the largest 16-bit value: the marker of an empty slot and of a failed read. */
  const NO_VAL: int := 0x7fff
  /** `INT_MIN` of the 16-bit `int`, where the search for the highest sample starts. */
  const INT_MIN: int := -0x8000

  function Last(q: seq<int>): int requires q != [] { q[|q| - 1] }
  function Front(q: seq<int>): seq<int> requires q != [] { q[..|q| - 1] }

  /** `sum` after the loop has visited q: the total of the samples (slots other than NO_VAL). */
  function SumOf(q: seq<int>): int
  {
    if q == [] then 0 else SumOf(Front(q)) + (if Last(q) != NO_VAL then Last(q) else 0)
  }

  /** `count` after the loop: the number of samples. */
  function CountOf(q: seq<int>): nat
  {
    if q == [] then 0 else CountOf(Front(q)) + (if Last(q) != NO_VAL then 1 else 0)
  }

  /** `hi` after the loop: `hi = max(hi, q[i])` over the samples, from INT_MIN. */
  function HiOf(q: seq<int>): int
  {
    if q == [] then INT_MIN
    else if Last(q) != NO_VAL then (if HiOf(Front(q)) >= Last(q) then HiOf(Front(q)) else Last(q))
    else HiOf(Front(q))
  }

  /** `lo` after the loop: `lo = min(lo, q[i])` over the samples, from INT_MAX. */
  function MinOf(q: seq<int>): int
  {
    if q == [] then NO_VAL
    else if Last(q) != NO_VAL then (if MinOf(Front(q)) <= Last(q) then MinOf(Front(q)) else Last(q))
    else MinOf(Front(q))
  }

  /** The sum that is divided: the highest and the lowest sample dropped when there are more than two. */
  function TrimmedSum(q: seq<int>): int
  {
    if CountOf(q) > 2 then SumOf(q) - HiOf(q) - MinOf(q) else SumOf(q)
  }

  /** The count that is divided by: two fewer when there are more than two samples. */
  function TrimmedCount(q: seq<int>): nat
  {
    if CountOf(q) > 2 then CountOf(q) - 2 else CountOf(q)
  }

  /** Every slot holds a 16-bit value. */
  predicate Slots16(q: seq<int>)
  {
    forall k :: 0 <= k < |q| ==> -0x8000 <= q[k] <= 0x7fff
  }

  /** Some slot holds a sample: then the count is positive. */
  lemma {:induction false} CountPositive(q: seq<int>, j: nat)
    requires j < |q| && q[j] != NO_VAL
    ensures CountOf(q) > 0 && TrimmedCount(q) > 0
  {
    if j < |q| - 1 {
      CountPositive(Front(q), j);
    }
  }

  /** The high value is the largest sample (or INT_MIN when there is none). */
  lemma {:induction false} HiIsMaximum(q: seq<int>)
    requires Slots16(q)
    ensures forall k :: 0 <= k < |q| && q[k] != NO_VAL ==> q[k] <= HiOf(q)
    ensures CountOf(q) > 0 ==> exists k :: 0 <= k < |q| && q[k] != NO_VAL && q[k] == HiOf(q)
    ensures CountOf(q) == 0 ==> HiOf(q) == INT_MIN
  {
    if q != [] {
      HiIsMaximum(Front(q));
      if CountOf(Front(q)) > 0 {
        var k :| 0 <= k < |Front(q)| && Front(q)[k] != NO_VAL && Front(q)[k] == HiOf(Front(q));
        assert q[k] == HiOf(Front(q));
      }
      if Last(q) != NO_VAL {
        assert q[|q| - 1] == Last(q);
      }
    }
  }

  /** The low value is the smallest sample (or NO_VAL when there is none). */
  lemma {:induction false} MinIsMinimum(q: seq<int>)
    requires Slots16(q)
    ensures forall k :: 0 <= k < |q| && q[k] != NO_VAL ==> MinOf(q) <= q[k]
    ensures CountOf(q) > 0 ==> exists k :: 0 <= k < |q| && q[k] != NO_VAL && q[k] == MinOf(q)
    ensures CountOf(q) == 0 ==> MinOf(q) == NO_VAL
  {
    if q != [] {
      MinIsMinimum(Front(q));
      if CountOf(Front(q)) > 0 {
        var k :| 0 <= k < |Front(q)| && Front(q)[k] != NO_VAL && Front(q)[k] == MinOf(Front(q));
        assert q[k] == MinOf(Front(q));
      }
      if Last(q) != NO_VAL {
        assert q[|q| - 1] == Last(q);
      }
    }
  }

  lemma MulStep(c: int, h: int, x: int)
    requires c >= 0 && h <= x
    ensures c * h <= c * x
  {
  }

  function Max(a: int, b: int): int { if a >= b then a else b }
  function Min(a: int, b: int): int { if a <= b then a else b }

  /** The bounds of `SumBetween` carry over to one more sample x. */
  lemma StepBounds(s: int, c: int, m: int, h: int, x: int)
    requires c >= 1 && m <= h
    requires h + (c - 1) * m <= s <= m + (c - 1) * h
    ensures s + x <= Min(m, x) + c * Max(h, x)
    ensures s + x >= Max(h, x) + c * Min(m, x)
  {
    var h', m' := Max(h, x), Min(m, x);
    MulStep(c - 1, h, h');
    MulStep(c - 1, m', m);
    assert (c - 1) * h' + h' == c * h';
    assert (c - 1) * m' + m' == c * m';
  }

  /**
   * The sum of the samples leaves room for the extremes: every sample but the
   * smallest is at most the highest, and every sample but the highest at least
   * the smallest.
   */
  lemma {:induction false} SumBetween(q: seq<int>)
    requires Slots16(q) && CountOf(q) > 0
    ensures SumOf(q) <= MinOf(q) + (CountOf(q) - 1) * HiOf(q)
    ensures SumOf(q) >= HiOf(q) + (CountOf(q) - 1) * MinOf(q)
  {
    var p := Front(q);
    assert Slots16(p);
    if CountOf(p) == 0 {
      ZeroCount(p);
      MinIsMinimum(p);
      HiIsMaximum(p);
    } else {
      SumBetween(p);
      MinIsMinimum(p);
      var k :| 0 <= k < |p| && p[k] != NO_VAL && p[k] == MinOf(p);
      HiIsMaximum(p);
      assert MinOf(p) <= HiOf(p);
      if Last(q) != NO_VAL {
        StepBounds(SumOf(p), CountOf(p), MinOf(p), HiOf(p), Last(q));
      }
    }
  }

  /** Without samples the sum is zero. */
  lemma {:induction false} ZeroCount(q: seq<int>)
    requires CountOf(q) == 0
    ensures SumOf(q) == 0
  {
    if q != [] {
      ZeroCount(Front(q));
    }
  }

  /** With a sample, the smallest is at most the highest. */
  lemma MinAtMostHi(q: seq<int>)
    requires Slots16(q) && CountOf(q) > 0
    ensures MinOf(q) <= HiOf(q)
  {
    MinIsMinimum(q);
    var k :| 0 <= k < |q| && q[k] != NO_VAL && q[k] == MinOf(q);
    HiIsMaximum(q);
  }

  /** Dropping the extremes from the bounds of `SumBetween` leaves the rest between them. */
  lemma TrimBounds(s: int, c: int, m: int, h: int)
    requires c >= 1 && m <= h
    requires h + (c - 1) * m <= s <= m + (c - 1) * h
    ensures c > 2 ==> m * (c - 2) <= s - h - m <= h * (c - 2)
    ensures c <= 2 ==> m * c <= s <= h * c
  {
    assert (c - 1) * h == (c - 2) * h + h;
    assert (c - 1) * m == (c - 2) * m + m;
    if c <= 2 {
      MulStep(c, m, h);
    }
  }

  /** The trimmed average lies between the smallest and the highest sample. */
  lemma TrimmedWithinRange(q: seq<int>)
    requires Slots16(q) && CountOf(q) > 0
    ensures MinOf(q) * TrimmedCount(q) <= TrimmedSum(q) <= HiOf(q) * TrimmedCount(q)
  {
    SumBetween(q);
    MinAtMostHi(q);
    TrimBounds(SumOf(q), CountOf(q), MinOf(q), HiOf(q));
  }

  /**
   * The average `(sum * 100) / (count * k)` of raw readings in 1/k degree, in 1/100
   * degree, lies between the smallest and the highest sample in 1/100 degree.
   */
  lemma AverageBetween(q: seq<int>, k: int)
    requires Slots16(q) && CountOf(q) > 0 && k > 0 && 100 % k == 0
    ensures MinOf(q) * (100 / k) <= Div(TrimmedSum(q) * 100, TrimmedCount(q) * k) <= HiOf(q) * (100 / k)
  {
    var u := 100 / k;
    assert u * k == 100;
    TrimmedWithinRange(q);
    ScaledBetween(TrimmedSum(q), TrimmedCount(q), MinOf(q), HiOf(q), k, u);
  }

  /** Scaling the bounds m * c <= s <= h * c by u = 100 / k and dividing by c * k. */
  lemma ScaledBetween(s: int, c: int, m: int, h: int, k: int, u: int)
    requires c > 0 && k > 0 && u * k == 100 && m * c <= s <= h * c
    ensures m * u <= Div(s * 100, c * k) <= h * u
  {
    MulLe(m * c, s, 100);
    MulLe(s, h * c, 100);
    assert (m * u) * (c * k) == (m * c) * 100 by {
      assert (m * u) * (c * k) == (m * c) * (u * k);
    }
    assert (h * u) * (c * k) == (h * c) * 100 by {
      assert (h * u) * (c * k) == (h * c) * (u * k);
    }
    DivBetween(s * 100, c * k, m * u, h * u);
  }

  /** Empty slots after the last sample change neither the sum, the count, the high nor the low value. */
  lemma {:induction false} EmptyTail(q: seq<int>, n: nat)
    ensures var e := q + seq(n, _ => NO_VAL);
      SumOf(e) == SumOf(q) && CountOf(e) == CountOf(q) && HiOf(e) == HiOf(q) && MinOf(e) == MinOf(q)
  {
    var e := q + seq(n, _ => NO_VAL);
    if n == 0 {
      assert e == q;
    } else {
      assert Front(e) == q + seq(n - 1, _ => NO_VAL);
      assert Last(e) == NO_VAL;
      EmptyTail(q, n - 1);
    }
  }

  /** The slots holding samples: the `size` slots before the write index, going round the queue. */
  predicate InWindow(i: int, index: int, size: int)
  {
    (index - 1 - i) % QUEUE_SIZE < size
  }

  /** Writing at the write index of a queue that is not full extends the window of samples by that slot. */
  lemma WindowGrows(t0: int, size0: int)
    requires 0 <= t0 < QUEUE_SIZE && 0 <= size0 < QUEUE_SIZE
    ensures forall i :: 0 <= i < QUEUE_SIZE ==>
      (InWindow(i, (t0 + 1) % QUEUE_SIZE, size0 + 1) <==> i == t0 || InWindow(i, t0, size0))
  {
    forall i | 0 <= i < QUEUE_SIZE
      ensures InWindow(i, (t0 + 1) % QUEUE_SIZE, size0 + 1) <==> i == t0 || InWindow(i, t0, size0)
    {
      var d := t0 - i;
      assert ((t0 + 1) % QUEUE_SIZE - 1 - i) % QUEUE_SIZE == if d >= 0 then d else d + 12;
      assert (t0 - 1 - i) % QUEUE_SIZE == if d >= 1 then d - 1 else d + 11;
    }
  }

  /** A full queue stays full when the oldest slot, the one at the write index, is overwritten. */
  lemma WindowFull(t0: int)
    requires 0 <= t0 < QUEUE_SIZE
    ensures forall i :: 0 <= i < QUEUE_SIZE ==>
      (InWindow(i, (t0 + 1) % QUEUE_SIZE, QUEUE_SIZE) <==> InWindow(i, t0, QUEUE_SIZE))
  {
  }

  /** With at least one sample, the slot just before the write index holds one. */
  lemma NewestInWindow(index: int, size: int)
    requires 0 <= index < QUEUE_SIZE && 0 < size
    ensures InWindow((index + QUEUE_SIZE - 1) % QUEUE_SIZE, index, size)
  {
  }
}
