/** The `Temperature` value type of the domain layer. */
module Temperatures {
  import opened Wrappers

  /** Absolute zero on the Celsius scale, the floor `FromCelsius` enforces. */
  const AbsoluteZeroCelsius: real := -273.15

  /** The only way `FromCelsius` fails. */
  datatype TemperatureError = BelowAbsoluteZero

  /**
   * An immutable temperature held in degrees Celsius. Like the source's positional
   * record, the plain constructor does not validate; `FromCelsius` does.
   */
  datatype Temperature = Temperature(Celsius: real)
  {
    /** The same temperature in kelvin; it is non-negative exactly on the physical range. */
    function Kelvin(): (k: real)
      ensures k >= 0.0 <==> Celsius >= AbsoluteZeroCelsius
      ensures k - 273.15 == Celsius
    {
      Celsius + 273.15
    }
  }

  /** Validating factory: rejects values strictly below absolute zero and keeps the rest unchanged. */
  function FromCelsius(c: real): (r: Result<Temperature, TemperatureError>)
    ensures r.Failure? <==> c < AbsoluteZeroCelsius
    ensures r.Failure? ==> r.error == BelowAbsoluteZero
    ensures r.Success? ==> r.value.Celsius == c && r.value.Kelvin() >= 0.0
  {
    if c < -273.15 then Failure(BelowAbsoluteZero) else Success(Temperature(c))
  }

  /** Absolute zero itself is accepted: the floor check is strict. */
  lemma AbsoluteZeroAccepted()
    ensures FromCelsius(AbsoluteZeroCelsius) == Success(Temperature(AbsoluteZeroCelsius))
    ensures FromCelsius(AbsoluteZeroCelsius).value.Kelvin() == 0.0
  {
  }
}
