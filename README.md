# HeatSphere calculation core in Dafny

This project models the calculation core of the HeatSphere backend and proves its
properties. The core has three parts:

- **Fluid-property interpolation** (`FluidInterpolationService`). A fluid's property
  table is sorted ascending by temperature. For a target temperature in kelvin, the
  service finds the two bracketing table points. If one of them lies within 1e-6 K of
  the target, it returns that stored point. Otherwise it returns a new point whose seven
  property fields are each interpolated linearly. An empty table and an out-of-range
  target are rejected.
- **1-2 shell-and-tube rating by the LMTD method** (`RateShellAndTube12WithLmtd.Execute`).
  The rater validates the four terminal temperatures and forms the counterflow
  ΔT1 and ΔT2. It then computes the LMTD (log-mean temperature difference), the P and R
  parameters, the intermediate S and W, and the F correction factor. Each degenerate
  region is rejected with its own error.
- **The `Temperature` value type.** It has a validating factory with an absolute-zero
  floor and a Celsius-to-kelvin conversion.

Files:

- `wrappers.dfy`: module `Wrappers` with `Option` and `Result`. A thrown exception
  becomes `Failure(e)`.
- `realmath.dfy`: module `RealMath`. It holds `Abs`, the predicates `IsLn`, `IsSqrt` and
  `HasTangentBounds` that stand in for `Math.Log` and `Math.Sqrt`, and small arithmetic
  lemmas.
- `temperature.dfy`: module `Temperatures`, for `Temperature.cs`.
- `fluid_interpolation.dfy`: module `FluidInterpolation`, for `FluidInterpolationService.cs`.
- `shell_and_tube_rating.dfy`: module `ShellAndTubeRating`, for
  `RateShellAndTube12WithLmtd.cs` and the `TerminalTemperatures` record.

Modelling choices:

- Every `double` is a Dafny `real`. The tolerances 1e-6 and 1e-9 are kept as real constants.
- `Math.Log` and `Math.Sqrt` are passed in as partial functions `ln, sqrt: real --> real`.
  `IsLn` says three things about `ln`: its domain is exactly the positive reals,
  `ln(1) = 0`, and it is strictly increasing. `IsSqrt` says that the domain of `sqrt` is
  the non-negative reals and that it returns the non-negative square root. Because the
  domain is the function's precondition, Dafny checks at every `ln(...)` in the rater
  that the argument is positive.
- The NaN/Infinity check on F (`RateShellAndTube12WithLmtd.cs:84-85`) has a real-number
  meaning: the denominator `ln(numArg / denArg)` is zero. It is modelled that way.
  `CorrectionFactor` proves that this guard fires exactly when P = 0 and R is outside
  the R ≈ 1 region (with P = 0 and R ≈ 1 the R guard fires first). `Execute` proves
  that it never fires, because the spread guard keeps P away from zero.
- The guard `ratio <= 0` (`RateShellAndTube12WithLmtd.cs:47-48`) is kept in the model and
  proved unreachable.
- The "Failed to find bounding temperature points" branch
  (`FluidInterpolationService.cs:47-48`) is kept in the method as an `assert false`
  branch. The method verifies, so the branch is proved unreachable.
- The repository fetch becomes the table passed in. `Guid.NewGuid()` becomes a parameter
  `newId`. Sortedness of the table is a precondition of the service method, because the
  repository orders by temperature (`FluidRepository.cs:14`).
- The near-match check (`FluidInterpolationService.cs:41-45`) looks only at the two
  bracketing points. On a sorted table this is the same as checking every entry:
  if any entry lies within 1e-6 of the target, a stored entry within 1e-6 is returned
  (`NearTabulatedReturnsStoredPoint`).
- The scan (`FluidInterpolationService.cs:27-39`) stops at the first entry at or above
  the target. So when several entries have exactly the target temperature, the first of
  them is returned (`TabulatedTemperatureReturnsThatPoint`).
- The errors carry what the code's exceptions carry. `FromCelsius` reports only that an
  input is below absolute zero. The rater's other exceptions carry only a message, so
  each becomes a constant of `RatingError`. The range error of the lookup carries the
  target and both table bounds.

## Model

| member | source | states |
|---|---|---|
| `Temperatures.Temperature.Kelvin` | backend/HeatSphere.Domain/Common/Temperature.cs:5 | the kelvin value is 273.15 above the Celsius value, and it is non-negative exactly when the Celsius value is at or above -273.15 |
| `Temperatures.FromCelsius` | backend/HeatSphere.Domain/Common/Temperature.cs:7-12 | fails (below absolute zero) exactly when c < -273.15; otherwise the value holds c unchanged and its kelvin value is non-negative |
| `Temperatures.AbsoluteZeroAccepted` | backend/HeatSphere.Domain/Common/Temperature.cs:10-11 | -273.15 itself is accepted, because the floor check is strict, and it is 0 K |
| `FluidInterpolation.Interpolate` | backend/HeatSphere.Application/Services/FluidInterpolationService.cs:69-72 | gives y1 at fraction 0 and y2 at fraction 1; for a fraction in [0, 1] the result lies between y1 and y2 |
| `FluidInterpolation.Fraction` | backend/HeatSphere.Application/Services/FluidInterpolationService.cs:50-52 | for t1 < t2 and t in [t1, t2] the fraction lies in [0, 1]; it is 0 exactly at t1 and 1 exactly at t2 |
| `FluidInterpolation.Interpolated` | backend/HeatSphere.Application/Services/FluidInterpolationService.cs:54-66 | the new point has the fresh identifier, the requested fluid and exactly the requested temperature; each of the seven fields lies between the lower and upper values; at an endpoint temperature the fields are that endpoint's |
| `FluidInterpolation.FirstAtOrAbove` | backend/HeatSphere.Application/Services/FluidInterpolationService.cs:27-39 | finds the first index whose temperature is at or above the target (every earlier one is below it), or reports that every entry is below it |
| `FluidInterpolation.UpperBracket` | backend/HeatSphere.Application/Services/FluidInterpolationService.cs:34-38 | the upper bracket is present exactly when some point is at or above the target, and it is the first such point |
| `FluidInterpolation.LowerBracket` | backend/HeatSphere.Application/Services/FluidInterpolationService.cs:29-32 | the lower bracket is present exactly when the table is non-empty and its first point is at or below the target; it is a table point at or below the target; it is the upper bracket itself or the point just before it, and with no upper bracket it is the last point |
| `FluidInterpolation.Lookup` | backend/HeatSphere.Application/Services/FluidInterpolationService.cs:8-67 | an empty table fails with no property data; a target outside [first, last] fails with the target and both bounds; a target inside the range always succeeds, so the bounding-points error cannot occur; a success is either a stored point within 1e-6 of the target, or a new point at exactly the target with the fresh id, lying strictly between two consecutive entries with every field between theirs |
| `FluidInterpolation.GetPropertiesForTemperature` | backend/HeatSphere.Application/Services/FluidInterpolationService.cs:8-67 | the scanning loop with early exit returns exactly what `Lookup` specifies for a sorted table |
| `FluidInterpolation.NearTabulatedReturnsStoredPoint` | backend/HeatSphere.Application/Services/FluidInterpolationService.cs:41-45 | on a sorted table, if any entry lies within 1e-6 of an in-range target, the result is a stored entry within 1e-6 of it, not a new point |
| `FluidInterpolation.TabulatedTemperatureReturnsThatPoint` | backend/HeatSphere.Application/Services/FluidInterpolationService.cs:27-45 | on a sorted table, a target equal to a tabulated temperature returns, unchanged, the first entry with exactly that temperature |
| `ShellAndTubeRating.TerminalTemperaturesOf` | backend/HeatSphere.Application/HeatExchangers/RateShellAndTube12WithLmtd.cs:25-29 | the four temperatures are built exactly when none is below absolute zero, and each holds its input unchanged |
| `ShellAndTubeRating.CounterflowLmtd` | backend/HeatSphere.Application/HeatExchangers/RateShellAndTube12WithLmtd.cs:39-51 | for positive ΔT's the ratio guard never fires and the LMTD is positive; it equals ΔT1 when the ΔT's differ by less than 1e-9, and otherwise LMTD · ln(ΔT1/ΔT2) = ΔT1 − ΔT2 |
| `ShellAndTubeRating.LmtdBetweenDeltaTs` | backend/HeatSphere.Application/HeatExchangers/RateShellAndTube12WithLmtd.cs:39-51 | given the tangent-line bounds of ln, the LMTD lies between ΔT1 and ΔT2 |
| `ShellAndTubeRating.CorrectionFactor` | backend/HeatSphere.Application/HeatExchangers/RateShellAndTube12WithLmtd.cs:63-85 | fails for R ≈ 1 exactly when R is within 1e-6 of 1; fails for P ≈ 1 exactly when R is not and P is within 1e-6 of 1; W ≤ 0 fails exactly when both guards pass and (1 − PR)/(1 − P) ≤ 0; the non-finite guard fires exactly when P = 0 and R is not within 1e-6 of 1; a returned F is positive |
| `ShellAndTubeRating.CorrectionFactorFacts` | backend/HeatSphere.Application/HeatExchangers/RateShellAndTube12WithLmtd.cs:70-85 | once the guards pass, the F denominator ln(numArg/denArg) is zero exactly when P = 0, and otherwise F is positive |
| `ShellAndTubeRating.ShellFactorNonZero` | backend/HeatSphere.Application/HeatExchangers/RateShellAndTube12WithLmtd.cs:70 | S has the sign of R − 1, so it is never zero |
| `ShellAndTubeRating.WIsOneExactlyWhenPIsZero` | backend/HeatSphere.Application/HeatExchangers/RateShellAndTube12WithLmtd.cs:71 | W = 1 exactly when P = 0 |
| `ShellAndTubeRating.LogArgumentGap` | backend/HeatSphere.Application/HeatExchangers/RateShellAndTube12WithLmtd.cs:76-77 | numArg − denArg = 2S(W − 1), so numArg exceeds denArg exactly when S and W − 1 have the same sign |
| `ShellAndTubeRating.SignOfCorrection` | backend/HeatSphere.Application/HeatExchangers/RateShellAndTube12WithLmtd.cs:82 | F = S ln(W) / ln(numArg/denArg) is positive when both logs follow those signs |
| `ShellAndTubeRating.CorrectedLmtd` | backend/HeatSphere.Application/HeatExchangers/RateShellAndTube12WithLmtd.cs:87 | the corrected LMTD is positive when F and the LMTD are, and equals the LMTD when F = 1 |
| `ShellAndTubeRating.Execute` | backend/HeatSphere.Application/HeatExchangers/RateShellAndTube12WithLmtd.cs:23-90 | an input below -273.15 fails before anything else; ΔT1 = ThIn − TcOut or ΔT2 = ThOut − TcIn ≤ 0 fails next; then a P or R denominator under 1e-9; then R within 1e-6 of 1; then P within 1e-6 of 1 (each exactly under its condition); the ratio and non-finite guards never fire; once all of these pass, the request fails exactly when `CorrectionFactor` of its P and R fails, and with the same error; a success echoes ΔT1, ΔT2, P and R as computed from the inputs, its LMTD is `CounterflowLmtd` of ΔT1 and ΔT2 (positive, and equal to ΔT1 in the equal-ΔT case), its F is what `CorrectionFactor` returns for its P and R (positive), and LmtdCorrected = F · LMTD > 0 |
| `ShellAndTubeRating.WRejectionOfRequest` | backend/HeatSphere.Application/HeatExchangers/RateShellAndTube12WithLmtd.cs:54-74 | a request is rejected for W ≤ 0 exactly when it passes the temperature, ΔT and spread guards, its P and R pass the R ≈ 1 and P ≈ 1 guards, and (1 − PR)/(1 − P) ≤ 0 for the P and R computed from it |
| `ShellAndTubeRating.WorkedExampleIsRated` | backend/HeatSphere.Application/HeatExchangers/RateShellAndTube12WithLmtd.cs:23-89 | hot 100 → 60, cold 20 → 50 is rated with ΔT1 = 50, ΔT2 = 40, P = 3/8, R = 4/3 |
| `ShellAndTubeRating.EqualSpreadsAreRejected` | backend/HeatSphere.Application/HeatExchangers/RateShellAndTube12WithLmtd.cs:60-64 | equal hot and cold spreads (R = 1) are rejected as outside the F region |
| `ShellAndTubeRating.CrossedTemperaturesAreRejected` | backend/HeatSphere.Application/HeatExchangers/RateShellAndTube12WithLmtd.cs:32-36 | a cold outlet above the hot inlet (ΔT1 < 0) is rejected |

## Left out

- Floating-point behaviour: rounding, overflow, NaN and infinities. Values are exact reals. The non-finite check on F is modelled as a zero denominator, its only cause over the reals.
- Numeric values of `Math.Log` and `Math.Sqrt`. They are parameters constrained by `IsLn` and `IsSqrt`, so no concrete F or LMTD value is derived.
- `ShellAndTubeRating.LmtdBetweenDeltaTs`: it assumes the tangent-line bounds of the logarithm (`HasTangentBounds`), which the three properties in `IsLn` alone do not give.
- `ShellAndTubeRating.CorrectionFactor`: the log-argument rejection (numArg ≤ 0 or denArg ≤ 0) is not restated as a formula of P and R. The contract records only its effect: every logarithm is applied to a positive argument, which Dafny checks at each `ln` call.
- Asynchronous repository access and the database query (`FluidRepository.cs`, `IFluidRepository.cs`). The table is passed in already sorted.
- Random identifiers: `Guid.NewGuid()` is the parameter `newId`, and a `Guid` is a natural number that is only compared.
- `CalculateCylinderFlowHandler.cs` and the Churchill–Bernstein correlation. The handler only orchestrates. `CylinderExternalFlowCaseStudy`, which holds the correlation, is not part of this model, and the correlation needs fractional powers.
- HTTP controllers, dependency injection, EF Core configuration and seed data, notes, the rating DTOs of a separate handler, and the React front end. None of these holds calculation logic.
