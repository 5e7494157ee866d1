/** Short-time energy of a frame (`calculateRMSValue`): the samples are squared
    and summed in a Java `long`, the sum is divided by the number of samples, and
    the square root of that mean is truncated to an `int`. */
module Energy {
  import opened PcmFrame

  const INT_MIN: int := -0x8000_0000
  const INT_MAX: int := 0x7fff_ffff
  const LONG_MIN: int := -0x8000_0000_0000_0000
  const LONG_MAX: int := 0x7fff_ffff_ffff_ffff

  /** 32768 squared: the largest square of a short. */
  const MAX_SQUARE: nat := 0x4000_0000

  /** The largest energy a frame can have: the magnitude of the most negative short. */
  const MAX_RMS: nat := 32768

  /** Java `int` arithmetic: the result wraps around to 32-bit two's complement. */
  function WrapInt(x: int): (r: int)
    ensures INT_MIN <= r <= INT_MAX
    ensures (r - x) % 0x1_0000_0000 == 0
    ensures INT_MIN <= x <= INT_MAX ==> r == x
  {
    (x - INT_MIN) % 0x1_0000_0000 + INT_MIN
  }

  /** Java `long` arithmetic: the result wraps around to 64-bit two's complement. */
  function WrapLong(x: int): (r: int)
    ensures LONG_MIN <= r <= LONG_MAX
    ensures (r - x) % 0x1_0000_0000_0000_0000 == 0
    ensures LONG_MIN <= x <= LONG_MAX ==> r == x
  {
    (x - LONG_MIN) % 0x1_0000_0000_0000_0000 + LONG_MIN
  }

  /** Squaring is monotonic on naturals. */
  lemma SquareMonotonic(x: nat, y: nat)
    requires x <= y
    ensures x * x <= y * y
  {
    calc {
      x * x;
    <=  { assert x * x <= x * y; }
      x * y;
    <=
      y * y;
    }
  }

  /** The magnitude of a sample. */
  function Magnitude(s: Short): (m: nat)
    ensures m <= MAX_RMS
    ensures m == 0 <==> s == 0
  {
    if s < 0 then -(s as int) else s
  }

  /** `sample * sample`, the term the source adds for each sample. */
  function Square(s: Short): (r: nat)
    ensures r <= MAX_SQUARE
    ensures r == 0 <==> s == 0
  {
    var m := Magnitude(s);
    SquareMonotonic(m, MAX_RMS);
    m * m
  }

  /** The exact sum of the squares of the samples. */
  function SumSquares(samples: seq<Short>): (r: nat)
    ensures r <= MAX_SQUARE * |samples|
  {
    if samples == [] then 0
    else SumSquares(samples[..|samples| - 1]) + Square(samples[|samples| - 1])
  }

  /** The sum of squares is zero exactly when every sample is zero. */
  lemma {:induction false} SumSquaresZero(samples: seq<Short>)
    ensures SumSquares(samples) == 0 <==> forall i :: 0 <= i < |samples| ==> samples[i] == 0
  {
    if samples != [] {
      var init := samples[..|samples| - 1];
      SumSquaresZero(init);
      assert forall i :: 0 <= i < |init| ==> init[i] == samples[i];
    }
  }

  /** When every sample squares to `v * v`, the sum is `|samples| * v * v`. */
  lemma {:induction false} SumSquaresConstant(samples: seq<Short>, v: nat)
    requires forall i :: 0 <= i < |samples| ==> Square(samples[i]) == v * v
    ensures SumSquares(samples) == (v * v) * |samples|
  {
    if samples != [] {
      var init := samples[..|samples| - 1];
      assert forall i :: 0 <= i < |init| ==> init[i] == samples[i];
      SumSquaresConstant(init, v);
      assert (v * v) * |samples| == (v * v) * |init| + v * v;
    }
  }

  /** The accumulation loop of the source. Each term `sample * sample` is computed
      in `int` arithmetic and added to a `long` accumulator; neither wraps, so the
      loop computes the exact sum of squares, which stays far below `LONG_MAX`. */
  method SumOfSquares(samples: seq<Short>) returns (sumSquared: int)
    requires |samples| <= SAMPLE_COUNT
    ensures sumSquared == SumSquares(samples)
    ensures 0 <= sumSquared <= MAX_SQUARE * |samples|
  {
    sumSquared := 0;
    for i := 0 to |samples|
      invariant sumSquared == SumSquares(samples[..i])
      invariant 0 <= sumSquared <= MAX_SQUARE * i
    {
      var sample := samples[i];
      var term := WrapInt((sample as int) * (sample as int));
      assert term == Square(sample);
      sumSquared := WrapLong(sumSquared + term);
      assert samples[..i + 1][..i] == samples[..i];
    }
    assert samples[..|samples|] == samples;
  }

  /** One step of the square root by digit doubling: if `q` is the root of `n / 4`,
      the root of `n` is `2q` or `2q + 1`. */
  lemma ISqrtStep(n: nat, q: nat)
    requires q * q <= n / 4 < (q + 1) * (q + 1)
    ensures (2 * q) * (2 * q) <= n < (2 * q + 2) * (2 * q + 2)
  {
    assert (2 * q) * (2 * q) == 4 * (q * q);
    assert (2 * q + 2) * (2 * q + 2) == 4 * ((q + 1) * (q + 1));
  }

  /** The integer (floor) square root: the largest `r` with `r * r <= n`. */
  function ISqrt(n: nat): (r: nat)
    ensures r * r <= n < (r + 1) * (r + 1)
  {
    if n == 0 then 0
    else
      var q := ISqrt(n / 4);
      ISqrtStep(n, q);
      var h := 2 * q;
      if (h + 1) * (h + 1) <= n then h + 1 else h
  }

  /** The floor square root is determined by its two bounds. */
  lemma ISqrtUnique(n: nat, r: nat)
    requires r * r <= n < (r + 1) * (r + 1)
    ensures ISqrt(n) == r
  {
    var s := ISqrt(n);
    if s < r {
      SquareMonotonic(s + 1, r);
    } else if r < s {
      SquareMonotonic(r + 1, s);
    }
  }

  /** The root exceeds `t` exactly when `n` reaches `(t + 1)` squared. */
  lemma ISqrtAbove(n: nat, t: nat)
    ensures ISqrt(n) > t <==> n >= (t + 1) * (t + 1)
  {
    var r := ISqrt(n);
    assert r * r <= n < (r + 1) * (r + 1);
    if r > t {
      SquareMonotonic(t + 1, r);
      assert (t + 1) * (t + 1) <= n;
    } else {
      SquareMonotonic(r + 1, t + 1);
      assert n < (t + 1) * (t + 1);
    }
  }

  /** Multiplication by a natural is monotonic. */
  lemma MulMonotonic(x: nat, y: nat, n: nat)
    requires x <= y
    ensures x * n <= y * n
  {
    assert y * n == x * n + (y - x) * n;
  }

  /** Division bounds: `a / n` is the largest `q` with `q * n <= a`. */
  lemma DivBounds(a: nat, n: nat)
    requires n > 0
    ensures (a / n) * n <= a < (a / n + 1) * n
  {
    assert a == (a / n) * n + a % n;
  }

  /** Dividing by `n` a value at most `m * n` gives at most `m`. */
  lemma DivAtMost(a: nat, n: nat, m: nat)
    requires n > 0 && a <= m * n
    ensures a / n <= m
  {
    DivBounds(a, n);
    if a / n > m {
      MulMonotonic(m + 1, a / n, n);
    }
  }

  /** Dividing an exact multiple `q * n` by `n` gives `q`. */
  lemma DivExact(q: nat, n: nat)
    requires n > 0
    ensures (q * n) / n == q
  {
    var d := (q * n) / n;
    DivBounds(q * n, n);
    if d < q {
      MulMonotonic(d + 1, q, n);
    } else if d > q {
      MulMonotonic(q + 1, d, n);
    }
  }

  /** The quotient of a sum of at most `n` squares of shorts by `n`. */
  lemma MeanBounds(sum: nat, n: nat)
    requires n > 0 && sum <= MAX_SQUARE * n
    ensures (sum / n) * n <= sum < (sum / n + 1) * n
    ensures sum / n <= MAX_SQUARE
  {
    DivBounds(sum, n);
    DivAtMost(sum, n, MAX_SQUARE);
  }

  /** A natural whose square is at most `m * m` is at most `m`. */
  lemma RootBound(r: nat, m: nat)
    requires r * r <= m * m
    ensures r <= m
  {
    if r > m {
      SquareMonotonic(m + 1, r);
    }
  }

  /** The mean square of the samples, rounded down as the source's `long` division
      `sumSquared / shortBuffer.length` does (the sum is never negative). */
  function MeanSquare(samples: seq<Short>): (m: nat)
    requires |samples| > 0
    ensures m * |samples| <= SumSquares(samples) < (m + 1) * |samples|
    ensures m <= MAX_SQUARE
  {
    MeanBounds(SumSquares(samples), |samples|);
    SumSquares(samples) / |samples|
  }

  /** The energy of a sequence of samples: the floor square root of the mean square. */
  function RmsOf(samples: seq<Short>): (r: nat)
    requires |samples| > 0
    ensures r * r <= MeanSquare(samples) < (r + 1) * (r + 1)
    ensures r <= MAX_RMS
  {
    var r := ISqrt(MeanSquare(samples));
    RootBound(r, MAX_RMS);
    r
  }

  /** The energy of one capture buffer (`rmsValue` after `calculateRMSValue`). */
  function Rms(buf: seq<Byte>): (r: nat)
    requires |buf| == BUFFER_SIZE
    ensures r <= MAX_RMS
  {
    RmsOf(Decode(buf))
  }

  /** A silent frame has energy 0. */
  lemma RmsOfSilence(samples: seq<Short>)
    requires |samples| > 0
    requires forall i :: 0 <= i < |samples| ==> samples[i] == 0
    ensures RmsOf(samples) == 0
  {
    SumSquaresZero(samples);
  }

  /** A frame whose samples all have magnitude `v` has energy exactly `v`:
      the mean square is exactly `v * v`. */
  lemma RmsOfConstantMagnitude(samples: seq<Short>, v: nat)
    requires |samples| > 0
    requires forall i :: 0 <= i < |samples| ==> Magnitude(samples[i]) == v
    ensures RmsOf(samples) == v
  {
    forall i | 0 <= i < |samples|
      ensures Square(samples[i]) == v * v
    {
    }
    SumSquaresConstant(samples, v);
    DivExact(v * v, |samples|);
    assert (v + 1) * (v + 1) == v * v + 2 * v + 1;
    ISqrtUnique(v * v, v);
  }

  /** The energy is above `t` exactly when the mean square reaches `(t + 1)` squared,
      so the classification can be decided without a square root. */
  lemma RmsAbove(samples: seq<Short>, t: nat)
    requires |samples| > 0
    ensures RmsOf(samples) > t <==> MeanSquare(samples) >= (t + 1) * (t + 1)
  {
    ISqrtAbove(MeanSquare(samples), t);
  }

  /** A buffer of zero bytes has energy 0. */
  lemma RmsOfZeroBuffer(buf: seq<Byte>)
    requires |buf| == BUFFER_SIZE
    requires forall k :: 0 <= k < |buf| ==> buf[k] == 0
    ensures Rms(buf) == 0
  {
    DecodeZeros(buf);
    RmsOfSilence(Decode(buf));
  }

  /** The buffer holding the given samples has energy `v` when every sample has magnitude `v`. */
  lemma RmsOfEncodedConstantMagnitude(samples: seq<Short>, v: nat)
    requires |samples| == SAMPLE_COUNT
    requires forall i :: 0 <= i < |samples| ==> Magnitude(samples[i]) == v
    ensures Rms(Encode(samples)) == v
  {
    DecodeEncode(samples);
    RmsOfConstantMagnitude(samples, v);
  }
}
