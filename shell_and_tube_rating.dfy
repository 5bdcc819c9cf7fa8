/**
 * Rating of a 1-2 shell-and-tube heat exchanger by the log-mean temperature difference
 * (LMTD) method with the F correction factor.
 *
 * The rater takes the four terminal temperatures in degrees Celsius, forms the
 * counterflow temperature differences, the LMTD, the P and R parameters and the F
 * factor, and rejects each degenerate region with its own error. `ln` and `sqrt`
 * stand for `Math.Log` and `Math.Sqrt` and are constrained only by `IsLn` and `IsSqrt`.
 */
module ShellAndTubeRating {
  import opened Wrappers
  import opened RealMath
  import opened Temperatures

  datatype RateShellAndTube12Request = RateShellAndTube12Request(ThInC: real, ThOutC: real, TcInC: real, TcOutC: real)

  datatype RateShellAndTube12Response = RateShellAndTube12Response(
    DeltaT1: real,
    DeltaT2: real,
    LmtdCounterflow: real,
    P: real,
    R: real,
    F: real,
    LmtdCorrected: real)

  /** The hot-side and cold-side inlet and outlet temperatures. */
  datatype TerminalTemperatures = TerminalTemperatures(ThIn: Temperature, ThOut: Temperature, TcIn: Temperature, TcOut: Temperature)

  /** The exceptions the rater throws, one per guard. */
  datatype RatingError =
    | InvalidTemperature(cause: TemperatureError) // an input below absolute zero
    | NonPositiveDeltaT                           // a counterflow difference is not positive
    | NonPositiveDeltaTRatio                      // the ratio of the differences is not positive
    | DegenerateTemperatureSpread                 // a P or R denominator is (nearly) zero
    | RNearOne                                    // R is within the tolerance of one
    | PNearOne                                    // P is within the tolerance of one
    | WNotPositive                                // the argument of ln(W) is not positive
    | LogArgumentNotPositive                      // a bracket of the F log argument is not positive
    | NonFiniteCorrection                         // F is NaN or infinite

  /** Below this difference between the two ΔT's the LMTD takes its limiting value. */
  const EqualDeltaTTolerance: real := 0.000000001
  /** Below this magnitude a P or R denominator counts as zero. */
  const SpreadTolerance: real := 0.000000001
  /** Below this distance from one, R or P lies outside the supported F region. */
  const CorrectionRegionTolerance: real := 0.000001

  predicate AtOrAboveAbsoluteZero(req: RateShellAndTube12Request)
  {
    req.ThInC >= AbsoluteZeroCelsius && req.ThOutC >= AbsoluteZeroCelsius &&
    req.TcInC >= AbsoluteZeroCelsius && req.TcOutC >= AbsoluteZeroCelsius
  }

  /** The request passes every guard before the F correction: temperatures, ΔT's and spreads. */
  predicate PassesSpreadChecks(req: RateShellAndTube12Request)
  {
    && AtOrAboveAbsoluteZero(req)
    && req.ThInC - req.TcOutC > 0.0 && req.ThOutC - req.TcInC > 0.0
    && Abs(req.ThInC - req.TcInC) >= SpreadTolerance && Abs(req.TcOutC - req.TcInC) >= SpreadTolerance
  }

  /** Builds the validated terminal temperatures, failing as soon as one input is below absolute zero. */
  function TerminalTemperaturesOf(req: RateShellAndTube12Request): (r: Result<TerminalTemperatures, TemperatureError>)
    ensures r.Success? <==> AtOrAboveAbsoluteZero(req)
    ensures r.Failure? ==> r.error == BelowAbsoluteZero
    ensures r.Success? ==>
      r.value.ThIn.Celsius == req.ThInC && r.value.ThOut.Celsius == req.ThOutC &&
      r.value.TcIn.Celsius == req.TcInC && r.value.TcOut.Celsius == req.TcOutC
  {
    match (FromCelsius(req.ThInC), FromCelsius(req.ThOutC), FromCelsius(req.TcInC), FromCelsius(req.TcOutC))
    case (Success(thIn), Success(thOut), Success(tcIn), Success(tcOut)) =>
      Success(TerminalTemperatures(thIn, thOut, tcIn, tcOut))
    case _ => Failure(BelowAbsoluteZero)
  }

  /**
   * The counterflow LMTD of two positive temperature differences: the first difference
   * itself when the two are (nearly) equal, otherwise their difference over the log of
   * their ratio.
   */
  function CounterflowLmtd(dT1: real, dT2: real, ln: real --> real): (r: Result<real, RatingError>)
    requires IsLn(ln)
    requires 0.0 < dT1 && 0.0 < dT2
    ensures r.Success? && r.value > 0.0
    ensures Abs(dT1 - dT2) < EqualDeltaTTolerance ==> r.value == dT1
    ensures Abs(dT1 - dT2) >= EqualDeltaTTolerance ==> r.value * ln(dT1 / dT2) == dT1 - dT2
  {
    if Abs(dT1 - dT2) < EqualDeltaTTolerance then
      Success(dT1)
    else
      var ratio := dT1 / dT2;
      if ratio <= 0.0 then
        Failure(NonPositiveDeltaTRatio)
      else
        LnSign(ln, ratio);
        QuotientAboveOne(dT1, dT2);
        SameSignQuotientPositive(dT1 - dT2, ln(ratio));
        Success((dT1 - dT2) / ln(ratio))
  }

  /**
   * The LMTD is a mean of the two temperature differences: it lies between them. This
   * uses the tangent-line bounds of the logarithm on top of `IsLn`.
   */
  lemma LmtdBetweenDeltaTs(dT1: real, dT2: real, ln: real --> real)
    requires HasTangentBounds(ln)
    requires 0.0 < dT1 && 0.0 < dT2
    ensures var lmtd := CounterflowLmtd(dT1, dT2, ln).value;
      (dT1 <= lmtd <= dT2) || (dT2 <= lmtd <= dT1)
  {
    var lmtd := CounterflowLmtd(dT1, dT2, ln).value;
    if Abs(dT1 - dT2) >= EqualDeltaTTolerance {
      var x := dT1 / dT2;
      TangentBoundsAtRatio(dT1, dT2, ln);
      SameSignQuotientPositive(dT1, dT2);
      LnSign(ln, x);
      QuotientAboveOne(dT1, dT2);
      MeanFromScaledBounds(dT1, dT2, ln(x), lmtd);
    }
  }

  /**
   * If lmtd * lx == dT1 - dT2 with lx of the sign of dT1 - dT2, and lx * dT2 <= dT1 - dT2 <= lx * dT1,
   * then lmtd lies between dT1 and dT2.
   */
  lemma MeanFromScaledBounds(dT1: real, dT2: real, lx: real, lmtd: real)
    requires dT1 != dT2
    requires lx > 0.0 <==> dT1 > dT2
    requires lx != 0.0
    requires lmtd * lx == dT1 - dT2
    requires lx * dT2 <= dT1 - dT2 <= lx * dT1
    ensures (dT1 <= lmtd <= dT2) || (dT2 <= lmtd <= dT1)
  {
    if dT1 > dT2 {
      OrderFromScaled(lx, dT2, lmtd);
      OrderFromScaled(lx, lmtd, dT1);
    } else {
      OrderFromScaled(-lx, lmtd, dT2);
      OrderFromScaled(-lx, dT1, lmtd);
    }
  }

  /** At x = dT1 / dT2 the tangent-line bounds read ln(x) dT2 <= dT1 - dT2 <= ln(x) dT1. */
  lemma TangentBoundsAtRatio(dT1: real, dT2: real, ln: real --> real)
    requires HasTangentBounds(ln)
    requires 0.0 < dT1 && 0.0 < dT2
    ensures ln(dT1 / dT2) * dT2 <= dT1 - dT2 <= ln(dT1 / dT2) * dT1
  {
    var x := dT1 / dT2;
    var lx := ln(x);
    SameSignQuotientPositive(dT1, dT2);
    assert lx * dT2 <= dT1 - dT2 by {
      assert lx <= x - 1.0;
      assert (x - 1.0) * dT2 == dT1 - dT2;
      ProductNonNegative(x - 1.0 - lx, dT2);
    }
    assert dT1 - dT2 <= lx * dT1 by {
      assert 1.0 - 1.0 / x <= lx;
      ReciprocalOfQuotient(dT1, dT2);
      assert (1.0 - dT2 / dT1) * dT1 == dT1 - dT2;
      ProductNonNegative(lx - (1.0 - dT2 / dT1), dT1);
    }
  }

  /** Scaling by a positive factor preserves order. */
  lemma OrderFromScaled(c: real, a: real, b: real)
    requires 0.0 < c && c * a <= c * b
    ensures a <= b
  {
    if a > b {
      ProductPositive(c, a - b);
    }
  }

  /** P and R pass the R and P guards, and W = (1 - P R) / (1 - P) is not positive. */
  predicate WNotPositiveRegion(P: real, R: real)
  {
    && Abs(R - 1.0) >= CorrectionRegionTolerance && Abs(1.0 - P) >= CorrectionRegionTolerance
    && (1.0 - P * R) / (1.0 - P) <= 0.0
  }

  /**
   * The F correction factor of a 1-2 shell-and-tube exchanger from P and R, with the
   * guards on its excluded regions.
   */
  function CorrectionFactor(P: real, R: real, ln: real --> real, sqrt: real --> real): (r: Result<real, RatingError>)
    requires IsLn(ln) && IsSqrt(sqrt)
    ensures r == Failure(RNearOne) <==> Abs(R - 1.0) < CorrectionRegionTolerance
    ensures r == Failure(PNearOne) <==> Abs(R - 1.0) >= CorrectionRegionTolerance && Abs(1.0 - P) < CorrectionRegionTolerance
    ensures r == Failure(WNotPositive) <==> WNotPositiveRegion(P, R)
    ensures r == Failure(NonFiniteCorrection) <==> P == 0.0 && Abs(R - 1.0) >= CorrectionRegionTolerance
    ensures r.Success? ==> r.value > 0.0
  {
    if Abs(R - 1.0) < CorrectionRegionTolerance then
      Failure(RNearOne)
    else if Abs(1.0 - P) < CorrectionRegionTolerance then
      Failure(PNearOne)
    else
      var S := sqrt(R * R + 1.0) / (R - 1.0);
      var W := (1.0 - P * R) / (1.0 - P);
      if W <= 0.0 then
        Failure(WNotPositive)
      else
        var numArg := 1.0 + W - S + S * W;
        var denArg := 1.0 + W + S - S * W;
        if numArg <= 0.0 || denArg <= 0.0 then
          Failure(LogArgumentNotPositive)
        else
          // Over the reals, F = S ln(W) / ln(numArg / denArg) is NaN or infinite exactly
          // when its denominator is zero.
          var denominator := ln(numArg / denArg);
          CorrectionFactorFacts(P, R, S, W, numArg, denArg, ln, sqrt);
          if denominator == 0.0 then
            Failure(NonFiniteCorrection)
          else
            Success(S * ln(W) / denominator)
  }

  /** The facts about the intermediate values of `CorrectionFactor` that its contract rests on. */
  lemma CorrectionFactorFacts(P: real, R: real, S: real, W: real, numArg: real, denArg: real, ln: real --> real, sqrt: real --> real)
    requires IsLn(ln) && IsSqrt(sqrt)
    requires R != 1.0 && P != 1.0
    requires S == sqrt(R * R + 1.0) / (R - 1.0) && W == (1.0 - P * R) / (1.0 - P)
    requires 0.0 < W
    requires numArg == 1.0 + W - S + S * W && denArg == 1.0 + W + S - S * W
    requires 0.0 < numArg && 0.0 < denArg
    ensures ln(numArg / denArg) == 0.0 <==> P == 0.0
    ensures ln(numArg / denArg) != 0.0 ==> S * ln(W) / ln(numArg / denArg) > 0.0
  {
    ShellFactorNonZero(R, S, sqrt);
    WIsOneExactlyWhenPIsZero(P, R, W);
    LogArgumentGap(S, W, numArg, denArg);
    QuotientAboveOne(numArg, denArg);
    LnSign(ln, numArg / denArg);
    LnSign(ln, W);
    var bottom := ln(numArg / denArg);
    if bottom != 0.0 {
      SignOfCorrection(S, ln(W), bottom);
    }
  }

  /** S = sqrt(R^2 + 1) / (R - 1) has the sign of R - 1, so it is never zero. */
  lemma ShellFactorNonZero(R: real, S: real, sqrt: real --> real)
    requires IsSqrt(sqrt) && R != 1.0
    requires S == sqrt(R * R + 1.0) / (R - 1.0)
    ensures S > 0.0 <==> R > 1.0
    ensures S != 0.0
  {
    SquareNonNegative(R);
    SqrtPositive(sqrt, R * R + 1.0);
    if R > 1.0 {
      SameSignQuotientPositive(sqrt(R * R + 1.0), R - 1.0);
    } else {
      SameSignQuotientPositive(-sqrt(R * R + 1.0), R - 1.0);
      assert -sqrt(R * R + 1.0) / (R - 1.0) == -S;
    }
  }

  /** W = (1 - P R) / (1 - P) equals one exactly when P is zero (given R is not one). */
  lemma WIsOneExactlyWhenPIsZero(P: real, R: real, W: real)
    requires R != 1.0 && P != 1.0
    requires W == (1.0 - P * R) / (1.0 - P)
    ensures W == 1.0 <==> P == 0.0
  {
    assert W * (1.0 - P) == 1.0 - P * R;
    if W == 1.0 {
      assert P * (R - 1.0) == 0.0;
      ProductZero(P, R - 1.0);
    }
  }

  /** The two log-argument brackets differ by 2 S (W - 1). */
  lemma LogArgumentGap(S: real, W: real, numArg: real, denArg: real)
    requires numArg == 1.0 + W - S + S * W && denArg == 1.0 + W + S - S * W
    ensures numArg - denArg == 2.0 * (S * (W - 1.0))
    ensures numArg > denArg <==> (S > 0.0 && W > 1.0) || (S < 0.0 && W < 1.0)
  {
    assert S * (W - 1.0) == S * W - S;
    if S > 0.0 && W > 1.0 {
      ProductPositive(S, W - 1.0);
    } else if S < 0.0 && W < 1.0 {
      ProductPositive(-S, 1.0 - W);
    } else if S > 0.0 && W <= 1.0 {
      ProductNonNegative(S, 1.0 - W);
    } else if S < 0.0 && W >= 1.0 {
      ProductNonNegative(-S, W - 1.0);
    }
  }

  /** F = S ln(W) / ln(numArg / denArg) is positive once its two logs follow the signs of W - 1 and S (W - 1). */
  lemma SignOfCorrection(S: real, lnW: real, bottom: real)
    requires S != 0.0 && bottom != 0.0
    requires bottom > 0.0 <==> (S > 0.0 && lnW > 0.0) || (S < 0.0 && lnW < 0.0)
    requires lnW != 0.0
    ensures S * lnW / bottom > 0.0
  {
    if S > 0.0 && lnW > 0.0 {
      ProductPositive(S, lnW);
    } else if S < 0.0 && lnW < 0.0 {
      ProductPositive(-S, -lnW);
    } else if S > 0.0 {
      ProductPositive(S, -lnW);
    } else {
      ProductPositive(-S, lnW);
    }
    SameSignQuotientPositive(S * lnW, bottom);
  }

  /** The rater's `Execute`. */
  function Execute(req: RateShellAndTube12Request, ln: real --> real, sqrt: real --> real): (r: Result<RateShellAndTube12Response, RatingError>)
    requires IsLn(ln) && IsSqrt(sqrt)
    ensures r == Failure(InvalidTemperature(BelowAbsoluteZero)) <==> !AtOrAboveAbsoluteZero(req)
    ensures r == Failure(NonPositiveDeltaT) <==>
      AtOrAboveAbsoluteZero(req) && (req.ThInC - req.TcOutC <= 0.0 || req.ThOutC - req.TcInC <= 0.0)
    ensures r == Failure(DegenerateTemperatureSpread) <==>
      && AtOrAboveAbsoluteZero(req)
      && req.ThInC - req.TcOutC > 0.0 && req.ThOutC - req.TcInC > 0.0
      && (Abs(req.ThInC - req.TcInC) < SpreadTolerance || Abs(req.TcOutC - req.TcInC) < SpreadTolerance)
    ensures r == Failure(RNearOne) <==>
      && PassesSpreadChecks(req)
      && Abs((req.ThInC - req.ThOutC) / (req.TcOutC - req.TcInC) - 1.0) < CorrectionRegionTolerance
    ensures r == Failure(PNearOne) <==>
      && PassesSpreadChecks(req)
      && Abs((req.ThInC - req.ThOutC) / (req.TcOutC - req.TcInC) - 1.0) >= CorrectionRegionTolerance
      && Abs(1.0 - (req.TcOutC - req.TcInC) / (req.ThInC - req.TcInC)) < CorrectionRegionTolerance
    ensures PassesSpreadChecks(req) ==>
      var P := (req.TcOutC - req.TcInC) / (req.ThInC - req.TcInC);
      var R := (req.ThInC - req.ThOutC) / (req.TcOutC - req.TcInC);
      (r.Failure? <==> CorrectionFactor(P, R, ln, sqrt).Failure?) &&
      (r.Failure? ==> r.error == CorrectionFactor(P, R, ln, sqrt).error)
    ensures r != Failure(NonPositiveDeltaTRatio)
    ensures r != Failure(NonFiniteCorrection)
    ensures r.Success? ==>
      && PassesSpreadChecks(req)
      && r.value.DeltaT1 == req.ThInC - req.TcOutC > 0.0
      && r.value.DeltaT2 == req.ThOutC - req.TcInC > 0.0
      && r.value.P == (req.TcOutC - req.TcInC) / (req.ThInC - req.TcInC)
      && r.value.R == (req.ThInC - req.ThOutC) / (req.TcOutC - req.TcInC)
      && Abs(r.value.R - 1.0) >= CorrectionRegionTolerance && Abs(1.0 - r.value.P) >= CorrectionRegionTolerance
      && r.value.LmtdCounterflow == CounterflowLmtd(r.value.DeltaT1, r.value.DeltaT2, ln).value > 0.0
      && (Abs(r.value.DeltaT1 - r.value.DeltaT2) < EqualDeltaTTolerance ==> r.value.LmtdCounterflow == r.value.DeltaT1)
      && CorrectionFactor(r.value.P, r.value.R, ln, sqrt) == Success(r.value.F)
      && r.value.F > 0.0
      && r.value.LmtdCorrected == CorrectedLmtd(r.value.F, r.value.LmtdCounterflow) > 0.0
  {
    match TerminalTemperaturesOf(req)
    case Failure(e) => Failure(InvalidTemperature(e))
    case Success(temps) =>
      // Counterflow ΔT's
      var dT1 := temps.ThIn.Celsius - temps.TcOut.Celsius;
      var dT2 := temps.ThOut.Celsius - temps.TcIn.Celsius;
      if dT1 <= 0.0 || dT2 <= 0.0 then
        Failure(NonPositiveDeltaT)
      else
        match CounterflowLmtd(dT1, dT2, ln)
        case Failure(e) => Failure(e)
        case Success(lmtd) =>
          var denomP := temps.ThIn.Celsius - temps.TcIn.Celsius;
          var denomR := temps.TcOut.Celsius - temps.TcIn.Celsius;
          if Abs(denomP) < SpreadTolerance || Abs(denomR) < SpreadTolerance then
            Failure(DegenerateTemperatureSpread)
          else
            var P := (temps.TcOut.Celsius - temps.TcIn.Celsius) / denomP;
            var R := (temps.ThIn.Celsius - temps.ThOut.Celsius) / denomR;
            // P is non-zero because its numerator is the R denominator.
            QuotientNonZero(denomR, denomP);
            match CorrectionFactor(P, R, ln, sqrt)
            case Failure(e) => Failure(e)
            case Success(F) =>
              Success(RateShellAndTube12Response(dT1, dT2, lmtd, P, R, F, CorrectedLmtd(F, lmtd)))
  }

  /**
   * The W guard of the rater, in terms of the request: a request that passes every
   * earlier guard is rejected for W <= 0 exactly when (1 - P R) / (1 - P) <= 0.
   */
  lemma WRejectionOfRequest(req: RateShellAndTube12Request, ln: real --> real, sqrt: real --> real)
    requires IsLn(ln) && IsSqrt(sqrt)
    ensures Execute(req, ln, sqrt) == Failure(WNotPositive) <==>
      && PassesSpreadChecks(req)
      && WNotPositiveRegion((req.TcOutC - req.TcInC) / (req.ThInC - req.TcInC), (req.ThInC - req.ThOutC) / (req.TcOutC - req.TcInC))
  {
    if PassesSpreadChecks(req) {
      var P := (req.TcOutC - req.TcInC) / (req.ThInC - req.TcInC);
      var R := (req.ThInC - req.ThOutC) / (req.TcOutC - req.TcInC);
      var f := CorrectionFactor(P, R, ln, sqrt);
      assert Execute(req, ln, sqrt) == Failure(WNotPositive) <==> f == Failure(WNotPositive);
    } else if !AtOrAboveAbsoluteZero(req) {
      assert Execute(req, ln, sqrt) == Failure(InvalidTemperature(BelowAbsoluteZero));
    } else if req.ThInC - req.TcOutC <= 0.0 || req.ThOutC - req.TcInC <= 0.0 {
      assert Execute(req, ln, sqrt) == Failure(NonPositiveDeltaT);
    } else {
      assert Execute(req, ln, sqrt) == Failure(DegenerateTemperatureSpread);
    }
  }

  /** The corrected LMTD: the counterflow LMTD scaled by the correction factor. */
  function CorrectedLmtd(F: real, lmtd: real): (c: real)
    ensures 0.0 < F && 0.0 < lmtd ==> 0.0 < c
    ensures F == 1.0 ==> c == lmtd
  {
    if 0.0 < F && 0.0 < lmtd then
      ProductPositive(F, lmtd);
      F * lmtd
    else
      F * lmtd
  }

  /**
   * Worked example: hot side 100 -> 60 degrees, cold side 20 -> 50 degrees is rated, with
   * ΔT1 = 50, ΔT2 = 40, P = 3/8 and R = 4/3.
   */
  lemma WorkedExampleIsRated(ln: real --> real, sqrt: real --> real)
    requires IsLn(ln) && IsSqrt(sqrt)
    ensures var r := Execute(RateShellAndTube12Request(100.0, 60.0, 20.0, 50.0), ln, sqrt);
      && r.Success?
      && r.value.DeltaT1 == 50.0 && r.value.DeltaT2 == 40.0
      && r.value.P == 0.375 && r.value.R == 4.0 / 3.0
  {
    // sqrt(R^2 + 1) = sqrt(25/9) = 5/3, so S = 5 and W = 0.8: both log-argument brackets are positive.
    SqrtOfSquare(sqrt, 5.0 / 3.0);
    assert (4.0 / 3.0) * (4.0 / 3.0) + 1.0 == (5.0 / 3.0) * (5.0 / 3.0);
  }

  /** Equal hot and cold spreads give R = 1, which lies outside the supported F region. */
  lemma EqualSpreadsAreRejected(ln: real --> real, sqrt: real --> real)
    requires IsLn(ln) && IsSqrt(sqrt)
    ensures Execute(RateShellAndTube12Request(100.0, 60.0, 20.0, 60.0), ln, sqrt) == Failure(RNearOne)
  {
  }

  /** A cold outlet above the hot inlet is a crossed configuration. */
  lemma CrossedTemperaturesAreRejected(ln: real --> real, sqrt: real --> real)
    requires IsLn(ln) && IsSqrt(sqrt)
    ensures Execute(RateShellAndTube12Request(50.0, 40.0, 20.0, 60.0), ln, sqrt) == Failure(NonPositiveDeltaT)
  {
  }
}
