/** The integer slope arithmetic of `logic/time_adjust.rs`: truncating fixed-point corrections of a
    time difference in microseconds by a rate in parts per billion. The laws are about the range where
    the code uses exact integers; beyond it the code's floating-point branch is an arbitrary function. */
module SlopeArithmetic {
  import opened Numbers

  const PPB: int := 1_000_000_000
  const I32_MAX: int := 0x7FFF_FFFF
  const CORRECTION_ERROR_MAX_PPB: int := 500_000_000
  const MAX_ITERATIONS: nat := 16

  function Abs(x: int): nat { if x < 0 then -x else x }

  /** Rust's integer division by a positive divisor truncates toward zero. */
  function TruncDiv(a: int, b: int): int
    requires b > 0
  {
    if a >= 0 then a / b else -(-a / b)
  }

  /** Differences for which `slope_correct` is exact (about 36 minutes either way). */
  predicate Exact(dt: int) { Abs(dt) < I32_MAX }

  predicate CorrectionInRange(c: int) { Abs(c) <= CORRECTION_ERROR_MAX_PPB }

  function SlopeCorrect(dt: int, c: int): int
    requires Exact(dt)
  {
    TruncDiv(dt * c, PPB)
  }

  /** `dt * (1 + c)` */
  function ForwardSlope(dt: int, c: int): int
    requires Exact(dt)
  {
    dt + SlopeCorrect(dt, c)
  }

  // ---------------------------------------------------------------- one correction

  lemma ProductAbs(a: int, b: int)
    ensures Abs(a * b) == Abs(a) * Abs(b)
    ensures a >= 0 && b >= 0 ==> a * b >= 0
  {
    if a < 0 && b < 0 {
      assert a * b == Abs(a) * Abs(b);
    } else if a < 0 {
      assert a * b == -(Abs(a) * b);
      assert Abs(a) * b >= 0;
    } else if b < 0 {
      assert a * b == -(a * Abs(b));
      assert a * Abs(b) >= 0;
    }
  }

  lemma MulMono(a: int, b: int, k: int)
    requires a <= b && 0 <= k
    ensures a * k <= b * k
  {
  }

  /** A correction is the exact product up to less than one unit, and never exceeds it. */
  lemma CorrectError(dt: int, c: int)
    requires Exact(dt)
    ensures Abs(PPB * SlopeCorrect(dt, c) - dt * c) < PPB
    ensures PPB * Abs(SlopeCorrect(dt, c)) <= Abs(dt) * Abs(c)
  {
    ProductAbs(dt, c);
  }

  /** Corrections of at most 50% at least halve. */
  lemma CorrectHalves(dt: int, c: int)
    requires Exact(dt) && CorrectionInRange(c)
    ensures 2 * Abs(SlopeCorrect(dt, c)) <= Abs(dt)
  {
    CorrectError(dt, c);
    MulMono(Abs(c), CORRECTION_ERROR_MAX_PPB, Abs(dt));
    assert Abs(dt) * Abs(c) == Abs(c) * Abs(dt) <= CORRECTION_ERROR_MAX_PPB * Abs(dt);
  }

  lemma TruncShift(a: int, c: int)
    requires 0 <= c <= CORRECTION_ERROR_MAX_PPB
    ensures 0 <= TruncDiv(a + c, PPB) - TruncDiv(a, PPB) <= 1
  {
  }

  /** A positive correction grows with its argument, but no faster than the argument. */
  lemma {:induction false} CorrectMono(x: int, y: int, c: int)
    requires Exact(x) && Exact(y) && x <= y && 0 <= c <= CORRECTION_ERROR_MAX_PPB
    ensures 0 <= SlopeCorrect(y, c) - SlopeCorrect(x, c) <= y - x
    decreases y - x
  {
    if x < y {
      CorrectMono(x, y - 1, c);
      TruncShift((y - 1) * c, c);
      assert (y - 1) * c + c == y * c;
    }
  }

  /** Truncation is odd, so a negative correction mirrors a positive one. */
  lemma CorrectOdd(dt: int, c: int)
    requires Exact(dt)
    ensures SlopeCorrect(dt, -c) == -SlopeCorrect(dt, c)
    ensures SlopeCorrect(-dt, c) == -SlopeCorrect(dt, c)
  {
    assert dt * -c == -(dt * c);
    assert -dt * c == -(dt * c);
  }

  // ---------------------------------------------------------------- the reverse conversion

  /** The `delta_adj` of iteration `k`: a `k`-fold correction of `dt`. */
  function Adjustment(dt: int, c: int, k: nat): (a: int)
    requires Exact(dt) && CorrectionInRange(c)
    ensures Abs(a) <= Abs(dt)
  {
    if k == 0 then dt
    else
      var prev := Adjustment(dt, c, k - 1);
      CorrectHalves(prev, c);
      SlopeCorrect(prev, c)
  }

  /** `dt` after `n` full iterations: the truncated geometric series for `dt / (1 - c)`. */
  function Series(dt: int, c: int, n: nat): int
    requires Exact(dt) && CorrectionInRange(c)
  {
    if n == 0 then dt else Series(dt, c, n - 1) + Adjustment(dt, c, n)
  }

  function ReverseSlope(dt: int, c: int): int
    requires Exact(dt) && CorrectionInRange(c)
  {
    Series(dt, c, MAX_ITERATIONS)
  }

  // ---------------------------------------------------------------- all distances and corrections

  /** The floating-point branch of `slope_correct`, for large distances. */
  type Approximation = (int, int) -> int

  function SlopeCorrectAll(large: Approximation, dt: int, c: int): int {
    if Exact(dt) then SlopeCorrect(dt, c) else large(dt, c)
  }

  function ForwardAll(large: Approximation, dt: int, c: int): (r: int)
    ensures Exact(dt) ==> r == ForwardSlope(dt, c)
  {
    dt + SlopeCorrectAll(large, dt, c)
  }

  function AdjustmentAll(large: Approximation, dt: int, c: int, k: nat): int {
    if k == 0 then dt else SlopeCorrectAll(large, AdjustmentAll(large, dt, c, k - 1), c)
  }

  function SeriesAll(large: Approximation, dt: int, c: int, n: nat): int {
    if n == 0 then dt else SeriesAll(large, dt, c, n - 1) + AdjustmentAll(large, dt, c, n)
  }

  function ReverseAll(large: Approximation, dt: int, c: int): int { SeriesAll(large, dt, c, MAX_ITERATIONS) }

  /** Within the exact range the floating-point branch is never taken. */
  lemma {:induction false} ExactStaysExact(large: Approximation, dt: int, c: int, n: nat)
    requires Exact(dt) && CorrectionInRange(c)
    ensures AdjustmentAll(large, dt, c, n) == Adjustment(dt, c, n) && SeriesAll(large, dt, c, n) == Series(dt, c, n)
  {
    if n > 0 {
      ExactStaysExact(large, dt, c, n - 1);
    }
  }

  lemma {:induction false} ZeroStays(large: Approximation, dt: int, c: int, k: nat, n: nat)
    requires k <= n && AdjustmentAll(large, dt, c, k) == 0
    ensures AdjustmentAll(large, dt, c, n) == 0 && SeriesAll(large, dt, c, n) == SeriesAll(large, dt, c, k)
    decreases n
  {
    if k < n {
      ZeroStays(large, dt, c, k, n - 1);
      assert 0 * c == 0;
    }
  }

  /** The loop of `reverse_slope_convert`, for every distance and correction: it stops as soon as an
      adjustment vanishes, which changes nothing, and in the exact range it computes the series. */
  method ReverseSlopeConvert(large: Approximation, dt: int, c: int) returns (r: int, iterations: nat)
    ensures r == ReverseAll(large, dt, c)
    ensures Exact(dt) && CorrectionInRange(c) ==> r == ReverseSlope(dt, c) && Abs(r) <= 2 * Abs(dt)
    ensures iterations <= MAX_ITERATIONS
    ensures forall k: nat | 1 <= k <= MAX_ITERATIONS && AdjustmentAll(large, dt, c, k) == 0 :: iterations <= k
  {
    r, iterations := dt, 0;
    var delta := dt;
    var done := false;
    while iterations < MAX_ITERATIONS && !done
      invariant iterations <= MAX_ITERATIONS
      invariant delta == AdjustmentAll(large, dt, c, iterations) && r == SeriesAll(large, dt, c, iterations)
      invariant done ==> delta == 0
      invariant forall k: nat | 1 <= k < iterations || (1 <= k == iterations && !done) ::
                  AdjustmentAll(large, dt, c, k) != 0
    {
      delta := SlopeCorrectAll(large, delta, c);
      r := r + delta;
      iterations := iterations + 1;
      done := delta == 0;
    }
    if done {
      ZeroStays(large, dt, c, iterations, MAX_ITERATIONS);
    }
    if Exact(dt) && CorrectionInRange(c) {
      ExactStaysExact(large, dt, c, MAX_ITERATIONS);
      SeriesBound(dt, c);
    }
  }

  // ---------------------------------------------------------------- accuracy

  lemma Halve(p: nat, a: nat, b: nat, d: nat)
    requires 2 * a <= b && p * b <= d
    ensures 2 * p * a <= d
  {
    MulMono(2 * a, b, p);
  }

  lemma {:induction false} AdjustmentShrinks(dt: int, c: int, k: nat)
    requires Exact(dt) && CorrectionInRange(c)
    ensures Pow2(k) * Abs(Adjustment(dt, c, k)) <= Abs(dt)
  {
    if k > 0 {
      AdjustmentShrinks(dt, c, k - 1);
      var prev := Adjustment(dt, c, k - 1);
      CorrectHalves(prev, c);
      Halve(Pow2(k - 1), Abs(Adjustment(dt, c, k)), Abs(prev), Abs(dt));
    }
  }

  /** How far `s`, with last adjustment `a`, is from solving `s * (1 - c) + c * a == dt`. */
  function Residual(dt: int, c: int, s: int, a: int): int {
    s * (PPB - c) - dt * PPB + c * a
  }

  lemma Telescope(dt: int, c: int, s: int, a: int)
    requires Exact(a)
    ensures Abs(Residual(dt, c, s + SlopeCorrect(a, c), SlopeCorrect(a, c)) - Residual(dt, c, s, a)) <= PPB - 1
  {
    var b := SlopeCorrect(a, c);
    CorrectError(a, c);
    assert (s + b) * (PPB - c) == s * (PPB - c) + b * PPB - c * b;
  }

  /** Telescoping: each iteration adds less than one unit of error. */
  lemma {:induction false} SeriesError(dt: int, c: int, n: nat)
    requires Exact(dt) && CorrectionInRange(c)
    ensures Abs(Residual(dt, c, Series(dt, c, n), Adjustment(dt, c, n))) <= n * (PPB - 1)
  {
    if n == 0 {
      assert dt * (PPB - c) == dt * PPB - dt * c;
    } else {
      hide Residual, SlopeCorrect;
      SeriesError(dt, c, n - 1);
      Telescope(dt, c, Series(dt, c, n - 1), Adjustment(dt, c, n - 1));
    }
  }

  /** `reverse_slope_convert` divides by `1 - c`, up to 16 units and what 16 halvings leave over. */
  lemma ReverseAccuracy(dt: int, c: int)
    requires Exact(dt) && CorrectionInRange(c)
    ensures 0x1_0000 * Abs(ReverseSlope(dt, c) * (PPB - c) - dt * PPB)
            <= 0x1_0000 * 16 * PPB + Abs(dt) * Abs(c)
  {
    SeriesError(dt, c, MAX_ITERATIONS);
    AdjustmentShrinks(dt, c, MAX_ITERATIONS);
    assert Pow2(16) == 0x1_0000 by { assert Pow2(8) == 256; }
    LastTerm(c, Adjustment(dt, c, MAX_ITERATIONS), Abs(dt));
  }

  lemma LastTerm(c: int, last: int, d: nat)
    requires 0x1_0000 * Abs(last) <= d
    ensures 0x1_0000 * Abs(c * last) <= d * Abs(c)
  {
    ProductAbs(c, last);
    MulMono(0x1_0000 * Abs(last), d, Abs(c));
  }

  lemma SeriesBound(dt: int, c: int)
    requires Exact(dt) && CorrectionInRange(c)
    ensures Abs(ReverseSlope(dt, c)) <= 2 * Abs(dt)
  {
    SeriesBoundAt(dt, c, MAX_ITERATIONS);
  }

  lemma {:induction false} SeriesBoundAt(dt: int, c: int, n: nat)
    requires Exact(dt) && CorrectionInRange(c)
    ensures Abs(Series(dt, c, n)) + Abs(Adjustment(dt, c, n)) <= 2 * Abs(dt)
  {
    if n > 0 {
      SeriesBoundAt(dt, c, n - 1);
      CorrectHalves(Adjustment(dt, c, n - 1), c);
    }
  }

  /** Converting with `reverse` and back with `forward` returns to the start within
      17 + |dt|*|c| / (2^16 * 10^9) microseconds. */
  lemma RoundTrip(dt: int, c: int)
    requires Abs(dt) < 0x4000_0000 && CorrectionInRange(c)
    ensures Exact(ReverseSlope(dt, -c))
    ensures 0x1_0000 * PPB * (Abs(ForwardSlope(ReverseSlope(dt, -c), c) - dt) - 17) <= Abs(dt) * Abs(c)
  {
    SeriesBound(dt, -c);
    ReverseAccuracy(dt, -c);
    var r := ReverseSlope(dt, -c);
    CorrectError(r, c);
    assert r * (PPB + c) == r * PPB + r * c;
  }

  /** For corrections of at most 100 ppm three iterations suffice. */
  lemma SmallCorrectionSettles(dt: int, c: int)
    requires Exact(dt) && Abs(c) <= 100_000
    ensures Adjustment(dt, c, 3) == 0 && ReverseSlope(dt, c) == Series(dt, c, 3)
  {
    SmallStep(dt, c, 0);
    SmallStep(dt, c, 1);
    SmallStep(dt, c, 2);
    var none: Approximation := (x, y) => 0;
    ExactStaysExact(none, dt, c, 3);
    ExactStaysExact(none, dt, c, MAX_ITERATIONS);
    ZeroStays(none, dt, c, 3, MAX_ITERATIONS);
  }

  lemma SmallStep(dt: int, c: int, k: nat)
    requires Exact(dt) && Abs(c) <= 100_000
    ensures 10_000 * Abs(Adjustment(dt, c, k + 1)) <= Abs(Adjustment(dt, c, k))
  {
    var prev := Adjustment(dt, c, k);
    CorrectError(prev, c);
    MulMono(Abs(c), 100_000, Abs(prev));
    assert Abs(prev) * Abs(c) == Abs(c) * Abs(prev);
  }

  /** ... and the round trip is exact within 3 microseconds. */
  lemma SmallRoundTrip(dt: int, c: int)
    requires Abs(dt) < 0x4000_0000 && Abs(c) <= 100_000
    ensures Exact(ReverseSlope(dt, -c))
    ensures Abs(ForwardSlope(ReverseSlope(dt, -c), c) - dt) <= 3
  {
    SeriesBound(dt, -c);
    SmallCorrectionSettles(dt, -c);
    SeriesError(dt, -c, 3);
    var r := ReverseSlope(dt, -c);
    CorrectError(r, c);
    assert r * (PPB + c) == r * PPB + r * c;
    assert -c * Adjustment(dt, -c, 3) == 0;
  }

  // ---------------------------------------------------------------- order

  lemma ForwardMono(x: int, y: int, c: int)
    requires Exact(x) && Exact(y) && x <= y && CorrectionInRange(c)
    ensures ForwardSlope(x, c) <= ForwardSlope(y, c)
  {
    if c >= 0 {
      CorrectMono(x, y, c);
    } else {
      CorrectMono(x, y, -c);
      CorrectOdd(x, c);
      CorrectOdd(y, c);
    }
  }

  /** Even-numbered adjustments keep the order; a negative correction makes the others reverse it. */
  lemma {:induction false} AdjustmentMono(x: int, y: int, c: int, k: nat)
    requires Exact(x) && Exact(y) && x <= y && CorrectionInRange(c)
    ensures c >= 0 || k % 2 == 0 ==> Adjustment(x, c, k) <= Adjustment(y, c, k)
    ensures c < 0 && k % 2 == 1 ==> Adjustment(x, c, k) >= Adjustment(y, c, k)
  {
    hide SlopeCorrect, TruncDiv;
    if k > 0 {
      AdjustmentMono(x, y, c, k - 1);
      var ax, ay := Adjustment(x, c, k - 1), Adjustment(y, c, k - 1);
      if c >= 0 {
        CorrectMono(ax, ay, c);
      } else {
        CorrectOdd(ax, c);
        CorrectOdd(ay, c);
        if ax <= ay { CorrectMono(ax, ay, -c); } else { CorrectMono(ay, ax, -c); }
      }
    }
  }

  /** An even number of iterations leaves the last, order-keeping adjustment unpaired; the others
      pair up into forward conversions. */
  lemma {:induction false} SeriesMono(x: int, y: int, c: int, n: nat)
    requires Exact(x) && Exact(y) && x <= y && CorrectionInRange(c)
    requires c >= 0 || n % 2 == 0
    ensures Series(x, c, n) <= Series(y, c, n)
    ensures c < 0 ==> Series(x, c, n) - Adjustment(x, c, n) <= Series(y, c, n) - Adjustment(y, c, n)
  {
    if n == 0 {
    } else if c >= 0 {
      SeriesMono(x, y, c, n - 1);
      AdjustmentMono(x, y, c, n);
    } else {
      SeriesMono(x, y, c, n - 2);
      AdjustmentMono(x, y, c, n - 2);
      AdjustmentMono(x, y, c, n);
      ForwardMono(Adjustment(x, c, n - 2), Adjustment(y, c, n - 2), c);
    }
  }

  /** Conversion never reverses the order of two timestamps, even when alternating corrections are
      cut off at 16 iterations. */
  lemma ReverseMono(x: int, y: int, c: int)
    requires Exact(x) && Exact(y) && x <= y && CorrectionInRange(c)
    ensures ReverseSlope(x, c) <= ReverseSlope(y, c)
  {
    SeriesMono(x, y, c, MAX_ITERATIONS);
  }
}
