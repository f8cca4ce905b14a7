/** `ClockDriftEstimate` of `logic/time_adjust.rs`: the drift estimate, its temperature and network
    updates, and the four timestamp conversions.

    Machine integers are newtypes, so every `+`, `-`, `*` and conversion below carries a proof that it
    stays in range: the absence of overflow and truncation is checked operation by operation. */
module ClockDrift {
  import opened Options
  import opened SlopeArithmetic

  newtype i32 = x: int | -0x8000_0000 <= x <= 0x7FFF_FFFF
  newtype u32 = x: int | 0 <= x <= 0xFFFF_FFFF
  newtype i64 = x: int | -0x8000_0000_0000_0000 <= x <= 0x7FFF_FFFF_FFFF_FFFF

  const I64_MIN: int := -0x8000_0000_0000_0000
  const I64_MAX: int := 0x7FFF_FFFF_FFFF_FFFF

  const NETWORK_TIME_UPDATE_INTERVAL_MIN_US: i64 := 60_000_000
  const NETWORK_UNCERTAINTY_THRESHOLD_MIN_PPB: u32 := 1_000
  const ESTIMATE_MIN_INITIAL_UNCERTAINTY_PPB: u32 := 100
  const ERROR_MAX: i32 := 500_000_000
  const ERROR_MAX_U32: u32 := 500_000_000

  /** An error in ppb and the uncertainty around it. */
  datatype Estimate = Estimate(error: i32, uncertainty: u32)

  predicate InBounds(e: Estimate) {
    -ERROR_MAX <= e.error <= ERROR_MAX && e.uncertainty <= ERROR_MAX_U32
  }

  /** `true_error` lies in the interval the estimate stands for. */
  predicate Covers(e: Estimate, trueError: int) {
    e.error as int - e.uncertainty as int <= trueError <= e.error as int + e.uncertainty as int
  }

  datatype TempCorrection = TempCorrection(raw: i64, temp: i64, estimate: Estimate)
  datatype NetworkTime = NetworkTime(server: i64, latency: u32)
  datatype NetworkRef = NetworkRef(network: NetworkTime, local: i64, initial: Estimate, maxTemp: u32)

  datatype NetworkResult =
    | Updated
    | NoPreviousData
    | PreviousDataTooRecent
    | UncertaintyTooLarge
    | ErrorTooLarge

  function Saturate(x: int): (r: i64)
    ensures I64_MIN <= x <= I64_MAX ==> r as int == x
  {
    if x < I64_MIN then I64_MIN as i64 else if x > I64_MAX then I64_MAX as i64 else x as i64
  }

  function SatSub(a: i64, b: i64): i64 { Saturate(a as int - b as int) }

  function SatMul(a: i64, b: i64): i64 { Saturate(a as int * b as int) }

  /** `/` on `i64`: truncating, and in range for a divisor of at least one. */
  function Div64(a: i64, b: i64): (r: i64)
    requires b > 0
    ensures r as int == TruncDiv(a as int, b as int)
  {
    QuotientSmaller(a as int, b as int);
    TruncDiv(a as int, b as int) as i64
  }

  lemma QuotientSmaller(a: int, b: int)
    requires b > 0
    ensures Abs(TruncDiv(a, b)) <= Abs(a)
  {
    DivBound(Abs(a), b);
  }

  lemma DivBound(a: nat, b: int)
    requires b > 0
    ensures a / b <= a
  {
    if a / b > a {
      MulMono(1, b, a / b);
    }
  }

  function Max32(a: i32, b: i32): i32 { if a < b then b else a }
  function Min32(a: i32, b: i32): i32 { if a < b then a else b }

  function Clamp(e: Estimate): (r: Estimate)
    ensures InBounds(r)
    ensures InBounds(e) ==> r == e
    ensures e.error > ERROR_MAX ==> r.error == ERROR_MAX
    ensures e.error < -ERROR_MAX ==> r.error == -ERROR_MAX
    ensures -ERROR_MAX <= e.error <= ERROR_MAX ==> r.error == e.error
    ensures r.uncertainty == if e.uncertainty > ERROR_MAX_U32 then ERROR_MAX_U32 else e.uncertainty
  {
    Estimate(Min32(Max32(e.error, -ERROR_MAX), ERROR_MAX),
             if e.uncertainty < ERROR_MAX_U32 then e.uncertainty else ERROR_MAX_U32)
  }

  /** Width of the hull of two intervals, as the temperature update computes it. */
  function Spread(prev: Estimate, next: Estimate): (w: u32)
    requires InBounds(prev) && InBounds(next)
    ensures w <= 2_000_000_000
    ensures forall x, y | (Covers(prev, x) || Covers(next, x)) && (Covers(prev, y) || Covers(next, y)) ::
              Abs(x - y) <= w as int
    ensures exists x, y ::
              (Covers(prev, x) || Covers(next, x)) && (Covers(prev, y) || Covers(next, y)) && x - y == w as int
  {
    var prevMin := prev.error - prev.uncertainty as i32;
    var prevMax := prev.error + prev.uncertainty as i32;
    var nextMin := next.error - next.uncertainty as i32;
    var nextMax := next.error + next.uncertainty as i32;
    assert Covers(prev, prevMin as int) && Covers(prev, prevMax as int);
    assert Covers(next, nextMin as int) && Covers(next, nextMax as int);
    (Max32(prevMax, nextMax) - Min32(prevMin, nextMin)) as u32
  }

  /** What the comparison with a reference clock is meant to decide, in unbounded arithmetic. */
  datatype Verdict = TooRecent | TooUncertain | TooLarge | Measured(error: int, uncertainty: int)

  function Judge(ref: NetworkRef, temp: i64, now: NetworkTime): Verdict {
    var localDt := temp as int - ref.local as int;
    var networkDt := now.server as int - ref.network.server as int;
    var latency := if now.latency < ref.network.latency then ref.network.latency as int else now.latency as int;
    if networkDt - latency <= 60_000_000 || localDt <= 60_000_000 then TooRecent
    else if latency * PPB / (networkDt - latency) >= 500_000_000 then TooUncertain
    else if localDt - networkDt >= I32_MAX || (localDt - networkDt) * PPB >= 500_000_000 * networkDt then TooLarge
    else Measured(TruncDiv((localDt - networkDt) * PPB, networkDt), latency * PPB / (networkDt - latency))
  }

  lemma DivLess(a: int, b: int, k: int)
    requires b > 0
    ensures a / b >= k <==> a >= k * b
  {
    if a / b >= k { MulMono(k, a / b, b); }
    if a >= k * b && a / b < k {
      MulMono(a / b, k - 1, b);
    }
  }

  lemma TruncQuotient(p: int, n: int)
    requires n > 0
    ensures TruncDiv(p, n) >= 500_000_000 <==> p >= 500_000_000 * n
    ensures p > -1_000_000_000 * n ==> TruncDiv(p, n) > -1_000_000_000
  {
    if p >= 0 {
      DivLess(p, n, 500_000_000);
      DivLess(p, n, 0);
    } else {
      DivLess(-p, n, 1_000_000_000);
      DivLess(-p, n, 0);
    }
  }

  /** The measured error, whichever way its product saturates: above -100%, judged against the
      threshold as in unbounded arithmetic, and exact for offsets up to 9223 seconds. */
  lemma ErrorQuotient(drift: i64, networkDt: i64, localDt: i64)
    requires networkDt > 60_000_000 && localDt > 60_000_000
    requires drift as int == localDt as int - networkDt as int
    ensures
      var e := Div64(SatMul(drift, 1_000_000_000), networkDt);
      && e as int > -1_000_000_000
      && (drift < 0x7FFF_FFFF ==>
            (e >= 500_000_000 <==> drift as int * PPB >= 500_000_000 * networkDt as int))
      && (Abs(drift as int) <= 9_223_372_036 ==> e as int == TruncDiv(drift as int * PPB, networkDt as int))
  {
    TruncQuotient(SatMul(drift, 1_000_000_000) as int, networkDt as int);
    TruncQuotient(drift as int * PPB, networkDt as int);
  }

  /** Timestamps far enough from the ends of the range that no difference saturates. */
  predicate NoneSaturates(ref: NetworkRef, temp: i64, now: NetworkTime) {
    && Abs(temp as int) < 0x4000_0000_0000_0000 && Abs(ref.local as int) < 0x4000_0000_0000_0000
    && Abs(now.server as int) < 0x4000_0000_0000_0000
    && Abs(ref.network.server as int) < 0x4000_0000_0000_0000 - 0x1_0000_0000
  }

  /** What the code makes of the comparison, in machine integers. */
  datatype Measurement = Recent | Uncertain | Extreme | Drift(error: i32, uncertainty: u32)

  /** The comparison in `update_network_time`, for arbitrary `i64` timestamps. When no difference saturates
      it decides as `Judge` does in unbounded arithmetic, and measures the same. */
  method Measure(prev: NetworkRef, tTemp: i64, now: NetworkTime) returns (m: Measurement)
    ensures m.Drift? ==> m.uncertainty < 500_000_000
    ensures NoneSaturates(prev, tTemp, now) ==>
              var v := Judge(prev, tTemp, now);
              && (m.Recent? <==> v.TooRecent?) && (m.Uncertain? <==> v.TooUncertain?)
              && (m.Extreme? <==> v.TooLarge?) && (m.Drift? <==> v.Measured?)
              && (m.Drift? ==> m.uncertainty as int == v.uncertainty)
              && (m.Drift? && Abs((tTemp as int - prev.local as int)
                                  - (now.server as int - prev.network.server as int)) <= 9_223_372_036 ==>
                    m.error as int == v.error)
  {
    hide TruncDiv, CorrectionInRange;
    var localDt := SatSub(tTemp, prev.local);
    var networkDt := SatSub(now.server, prev.network.server);
    var maxLatency := if now.latency < prev.network.latency then prev.network.latency else now.latency;
    var networkDtMin := SatSub(networkDt, maxLatency as i64);
    if (if networkDtMin < localDt then networkDtMin else localDt) <= NETWORK_TIME_UPDATE_INTERVAL_MIN_US {
      return Recent;
    }
    NonNegativeQuotient(maxLatency as int * 1_000_000_000, networkDtMin as int);
    var uncertainty64 := Div64(maxLatency as i64 * 1_000_000_000, networkDtMin);
    if uncertainty64 >= 500_000_000 {
      return Uncertain;
    }
    var drift := localDt - networkDt;
    ErrorQuotient(drift, networkDt, localDt);
    var error64 := Div64(SatMul(drift, 1_000_000_000), networkDt);
    if drift >= 0x7FFF_FFFF || error64 >= 500_000_000 {
      return Extreme;
    }
    return Drift(error64 as i32, uncertainty64 as u32);
  }

  /** An estimate is the sum of two, held within the bounds. */
  predicate IsSum(total: Estimate, a: Estimate, b: Estimate) {
    var error, uncertainty := a.error as int + b.error as int, a.uncertainty as int + b.uncertainty as int;
    && total.error as int == (if error < -500_000_000 then -500_000_000
                              else if error > 500_000_000 then 500_000_000 else error)
    && total.uncertainty as int == if uncertainty > 500_000_000 then 500_000_000 else uncertainty
  }

  class ClockDriftEstimate {
    var preTemp: Estimate
    var estimateAt: Option<(i64, i64)>
    var temp: Option<TempCorrection>
    var network: Option<NetworkRef>

    /** The bounds every update keeps. */
    ghost predicate Valid()
      reads this
    {
      && InBounds(preTemp)
      && (temp.Some? ==> InBounds(temp.value.estimate))
      && (network.Some? ==> InBounds(network.value.initial) && network.value.maxTemp <= 2_000_000_000)
    }

    constructor (initial: Estimate)
      requires InBounds(initial)
      ensures Valid()
      ensures preTemp.error == initial.error
      ensures preTemp.uncertainty == if initial.uncertainty < 100 then 100 else initial.uncertainty
      ensures estimateAt == None && temp == None && network == None
    {
      preTemp := if initial.uncertainty < ESTIMATE_MIN_INITIAL_UNCERTAINTY_PPB
                 then initial.(uncertainty := ESTIMATE_MIN_INITIAL_UNCERTAINTY_PPB) else initial;
      estimateAt, temp, network := None, None, None;
    }

    /** `estimate`: drift plus temperature, clamped. */
    method Total() returns (total: Estimate)
      requires Valid()
      ensures InBounds(total)
      ensures temp.None? ==> total == preTemp
      ensures temp.Some? ==> IsSum(total, temp.value.estimate, preTemp)
    {
      var t := if temp.Some? then temp.value.estimate else Estimate(0, 0);
      total := Clamp(Estimate(t.error + preTemp.error, t.uncertainty + preTemp.uncertainty));
    }

    /** `update_temp_correction`. While a network interval is open, the recorded temperature
        uncertainty covers the distance between any two errors the old and new corrections allow. */
    method UpdateTempCorrection(raw: i64, tTemp: i64, adjust: Estimate) returns (total: Estimate)
      requires Valid() && InBounds(adjust)
      modifies this
      ensures Valid() && InBounds(total) && IsSum(total, adjust, preTemp)
      ensures temp == Some(TempCorrection(raw, tTemp, adjust))
      ensures preTemp == old(preTemp) && estimateAt == old(estimateAt)
      ensures network.Some? == old(network).Some?
      ensures network.Some? ==>
                && network.value == old(network).value.(maxTemp := network.value.maxTemp)
                && (tTemp <= network.value.local ==> network == old(network))
                && (tTemp > network.value.local ==>
                      var known := old(network).value.maxTemp;
                      var seen := if old(temp).Some? then Spread(old(temp).value.estimate, adjust)
                                  else adjust.uncertainty;
                      network.value.maxTemp == if seen > known then seen else known)
    {
      if network.Some? && tTemp > network.value.local {
        var uncertainty := if temp.Some? then Spread(temp.value.estimate, adjust) else adjust.uncertainty;
        if uncertainty > network.value.maxTemp {
          network := Some(network.value.(maxTemp := uncertainty));
        }
      }
      temp := Some(TempCorrection(raw, tTemp, adjust));
      total := Total();
    }

    /** `update_network_time`, for arbitrary `i64` timestamps. `average` stands for the floating-point
        weighing, whose result the code clamps. When no difference saturates, the decision is the one
        `Judge` makes in unbounded arithmetic. */
    method UpdateNetworkTime(tTemp: i64, tDrift: i64, now: NetworkTime, average: (Estimate, Estimate) -> Estimate)
      returns (r: NetworkResult)
      requires Valid()
      modifies this
      ensures Valid()
      ensures temp == old(temp)
      ensures r.NoPreviousData? <==> old(network).None?
      ensures !r.Updated? ==> preTemp == old(preTemp) && estimateAt == old(estimateAt)
      ensures r.Updated? ==> estimateAt == Some((tTemp, tDrift))
      ensures r.PreviousDataTooRecent? || r.UncertaintyTooLarge? ==> network == old(network)
      ensures r.NoPreviousData? || r.ErrorTooLarge? ==>
                network.Some? && network.value.network == now && network.value.local == tTemp
                && network.value.initial == preTemp
                && network.value.maxTemp == (if old(network).Some? then old(network).value.maxTemp
                                             else if temp.Some? then temp.value.estimate.uncertainty else 0)
      ensures
        old(network).Some? && NoneSaturates(old(network).value, tTemp, now) ==>
          var v := Judge(old(network).value, tTemp, now);
          && (r.PreviousDataTooRecent? <==> v.TooRecent?)
          && (r.UncertaintyTooLarge? <==> v.TooUncertain?)
          && (r.ErrorTooLarge? <==> v.TooLarge?)
          && (r.Updated? <==> v.Measured?)
          && (r.Updated? && Abs((tTemp as int - old(network).value.local as int)
                                - (now.server as int - old(network).value.network.server as int)) <= 9_223_372_036 ==>
                exists m: Estimate ::
                  && m.error as int == v.error
                  && m.uncertainty as int == v.uncertainty + old(network).value.maxTemp as int
                  && preTemp == Clamp(average(old(network).value.initial, m)))
          && (r.Updated? ==>
                network == if v.uncertainty < 1_000 && v.uncertainty < old(network).value.maxTemp as int
                           then Some(NetworkRef(now, tTemp, preTemp, old(network).value.maxTemp)) else old(network))
    {
      hide Judge, NoneSaturates, Clamp;
      if network.None? {
        network := Some(NetworkRef(now, tTemp, preTemp, if temp.Some? then temp.value.estimate.uncertainty else 0));
        return NoPreviousData;
      }
      var prev := network.value;
      var m := Measure(prev, tTemp, now);
      match m
      case Recent => return PreviousDataTooRecent;
      case Uncertain => return UncertaintyTooLarge;
      case Extreme =>
        network := Some(NetworkRef(now, tTemp, preTemp, prev.maxTemp));
        return ErrorTooLarge;
      case Drift(error, uncertainty) =>
        var measured := Estimate(error, uncertainty + prev.maxTemp);
        preTemp := Clamp(average(prev.initial, measured));
        estimateAt := Some((tTemp, tDrift));
        if uncertainty < (if prev.maxTemp < NETWORK_UNCERTAINTY_THRESHOLD_MIN_PPB then prev.maxTemp
                          else NETWORK_UNCERTAINTY_THRESHOLD_MIN_PPB) {
          network := Some(NetworkRef(now, tTemp, preTemp, prev.maxTemp));
        }
        return Updated;
    }

    /** `convert_raw_to_temp_corrected`. `large` is the floating-point branch, which only distances
        outside the exact range reach. */
    method RawToTemp(raw: i64, large: Approximation) returns (t: int)
      requires Valid()
      ensures temp.None? ==> t == raw as int
      ensures temp.Some? ==> t == CorrectAll(large, TempAnchor(temp.value), raw as int)
    {
      if temp.None? {
        return raw as int;
      }
      var delta, _ :=
        ReverseSlopeConvert(large, raw as int - temp.value.raw as int, -(temp.value.estimate.error as int));
      t := temp.value.temp as int + delta;
      CorrectIsExact(large, TempAnchor(temp.value), raw as int);
    }

    /** `convert_temp_corrected_to_raw` */
    method TempToRaw(t: i64, large: Approximation) returns (raw: int)
      requires Valid()
      ensures temp.None? ==> raw == t as int
      ensures temp.Some? ==> raw == UncorrectAll(large, TempAnchor(temp.value), t as int)
    {
      if temp.None? {
        return t as int;
      }
      raw := temp.value.raw as int
             + ForwardAll(large, t as int - temp.value.temp as int, temp.value.estimate.error as int);
    }

    /** `convert_temp_corrected_to_drift_corrected`: the first conversion pins the two clocks together. */
    method TempToDrift(t: i64, large: Approximation) returns (d: int)
      requires Valid()
      modifies `estimateAt
      ensures old(estimateAt).None? ==> d == t as int && estimateAt == Some((t, t))
      ensures old(estimateAt).Some? ==>
                && estimateAt == old(estimateAt)
                && d == CorrectAll(large, DriftAnchor(estimateAt.value, preTemp), t as int)
    {
      if estimateAt.None? {
        estimateAt := Some((t, t));
        return t as int;
      }
      var delta, _ := ReverseSlopeConvert(large, t as int - estimateAt.value.0 as int, -(preTemp.error as int));
      d := estimateAt.value.1 as int + delta;
    }

    /** `convert_drift_corrected_to_temp_corrected` */
    method DriftToTemp(d: i64, large: Approximation) returns (t: int)
      requires Valid()
      modifies `estimateAt
      ensures old(estimateAt).None? ==> t == d as int && estimateAt == Some((d, d))
      ensures old(estimateAt).Some? ==>
                && estimateAt == old(estimateAt)
                && t == UncorrectAll(large, DriftAnchor(estimateAt.value, preTemp), d as int)
    {
      if estimateAt.None? {
        estimateAt := Some((d, d));
        return d as int;
      }
      t := estimateAt.value.0 as int + ForwardAll(large, d as int - estimateAt.value.1 as int, preTemp.error as int);
    }
  }

  function TempAnchor(c: TempCorrection): Anchor {
    Anchor(c.raw as int, c.temp as int, c.estimate.error as int)
  }

  function DriftAnchor(at: (i64, i64), e: Estimate): Anchor {
    Anchor(at.0 as int, at.1 as int, e.error as int)
  }

  lemma NonNegativeQuotient(a: int, b: int)
    requires a >= 0 && b > 0
    ensures TruncDiv(a, b) == a / b >= 0
  {
    DivLess(a, b, 0);
  }

  /** The rejection of an unreasonable drift is one-sided: a local clock that lost 90% of the
      interval is measured, not rejected. */
  lemma SlowClockIsNotRejected()
    ensures
      var ref := NetworkRef(NetworkTime(0, 0), 0, Estimate(0, 0), 0);
      Judge(ref, 70_000_000, NetworkTime(700_000_000, 0)) == Measured(-900_000_000, 0)
  {
  }

  /** Exactly when that happens: an error of 50% or more is measured if and only if both intervals are
      longer than a minute, the latency is less than half of what it leaves of the network's, and the
      local clock ran at most half as fast. */
  lemma UnreasonableErrorIsMeasuredIff(ref: NetworkRef, temp: i64, now: NetworkTime)
    ensures
      var v := Judge(ref, temp, now);
      var localDt := temp as int - ref.local as int;
      var networkDt := now.server as int - ref.network.server as int;
      var latency := if now.latency < ref.network.latency then ref.network.latency as int else now.latency as int;
      (v.Measured? && Abs(v.error) >= 500_000_000) <==>
        && networkDt - latency > 60_000_000 && localDt > 60_000_000
        && latency * PPB / (networkDt - latency) < 500_000_000 && 2 * localDt <= networkDt
  {
    var localDt := temp as int - ref.local as int;
    var networkDt := now.server as int - ref.network.server as int;
    if !Judge(ref, temp, now).TooRecent? {
      HalfSpeed((localDt - networkDt) * PPB, networkDt);
    }
  }

  lemma HalfSpeed(p: int, n: int)
    requires n > 0
    ensures p < 500_000_000 * n ==> (Abs(TruncDiv(p, n)) >= 500_000_000 <==> p <= -500_000_000 * n)
  {
    TruncQuotient(p, n);
    if p >= 0 {
      DivLess(p, n, 0);
    } else {
      DivLess(-p, n, 500_000_000);
      DivLess(-p, n, 0);
    }
  }

  // ---------------------------------------------------------------- the conversions

  /** A pair of corresponding timestamps and the rate error at that point. */
  datatype Anchor = Anchor(from: int, to: int, error: int)

  predicate Usable(a: Anchor) { CorrectionInRange(a.error) }

  /** Raw to temperature-corrected, and temperature-corrected to drift-corrected. */
  function Correct(a: Anchor, t: int): int
    requires Usable(a) && Exact(t - a.from)
  {
    a.to + ReverseSlope(t - a.from, -a.error)
  }

  /** Temperature-corrected to raw, and drift-corrected to temperature-corrected. */
  function Uncorrect(a: Anchor, t: int): int
    requires Usable(a) && Exact(t - a.to)
  {
    a.from + ForwardSlope(t - a.to, a.error)
  }

  /** The conversions for every timestamp. */
  function CorrectAll(large: Approximation, a: Anchor, t: int): int { a.to + ReverseAll(large, t - a.from, -a.error) }

  function UncorrectAll(large: Approximation, a: Anchor, t: int): int { a.from + ForwardAll(large, t - a.to, a.error) }

  /** In the exact range the floating-point branch does not matter, so the laws below are about the
      conversions the code makes. */
  lemma CorrectIsExact(large: Approximation, a: Anchor, t: int)
    requires Usable(a)
    ensures Exact(t - a.from) ==> CorrectAll(large, a, t) == Correct(a, t)
    ensures Exact(t - a.to) ==> UncorrectAll(large, a, t) == Uncorrect(a, t)
  {
    if Exact(t - a.from) {
      ExactStaysExact(large, t - a.from, -a.error, MAX_ITERATIONS);
    }
  }

  /** No conversion reverses the order of two timestamps. */
  lemma ConversionsKeepOrder(large: Approximation, a: Anchor, s: int, t: int)
    requires Usable(a) && s <= t
    ensures Exact(s - a.from) && Exact(t - a.from) ==> CorrectAll(large, a, s) <= CorrectAll(large, a, t)
    ensures Exact(s - a.to) && Exact(t - a.to) ==> UncorrectAll(large, a, s) <= UncorrectAll(large, a, t)
  {
    CorrectIsExact(large, a, s);
    CorrectIsExact(large, a, t);
    if Exact(s - a.from) && Exact(t - a.from) {
      ReverseMono(s - a.from, t - a.from, -a.error);
    }
    if Exact(s - a.to) && Exact(t - a.to) {
      ForwardMono(s - a.to, t - a.to, a.error);
    }
  }

  /** Correcting and undoing the correction returns within
      17 + |dt|*|error| / (2^16 * 10^9) microseconds, and within 3 for errors up to 100 ppm. */
  lemma ConversionRoundTrip(large: Approximation, a: Anchor, t: int)
    requires Usable(a) && Abs(t - a.from) < 0x4000_0000
    ensures
      var back := UncorrectAll(large, a, CorrectAll(large, a, t));
      && 0x1_0000 * PPB * (Abs(back - t) - 17) <= Abs(t - a.from) * Abs(a.error)
      && (Abs(a.error) <= 100_000 ==> Abs(back - t) <= 3)
  {
    CorrectIsExact(large, a, t);
    RoundTrip(t - a.from, a.error);
    CorrectIsExact(large, a, Correct(a, t));
    if Abs(a.error) <= 100_000 {
      SmallRoundTrip(t - a.from, a.error);
    }
  }
}
