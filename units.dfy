/**
 * The value types of the SHT20 driver (src/utilities.ts, Temperature and
 * Humidity): immutable readings tagged with their unit.
 *
 * Values are `real`. The driver computes in IEEE-754 doubles, so nothing
 * here claims a numeric equality that rounding could break: the lemmas are
 * about unit tags, the same-unit identity, conversions that perform the
 * very same operations, the one conversion that ignores its input, and one
 * bound (below -459 °F for 0 K) with ample room for rounding.
 */
module Units {

  /** TemperatureUnits: the three units a temperature can carry. */
  datatype TemperatureUnit = Celsius | Fahrenheit | Kelvin {
    /** The string each enum member stands for. */
    function Symbol(): (s: string) {
      match this
      case Celsius => "°C"
      case Fahrenheit => "°F"
      case Kelvin => "K"
    }
  }

  /**
   * JavaScript's comma operator `(left, right)`: it evaluates both operands
   * and yields the right one, discarding the left.
   */
  function Comma(left: real, right: real): (r: real) {
    right
  }

  /**
   * A temperature reading. `Temperature(v)` defaults to degrees Celsius, as
   * `new Temperature(v)` does.
   */
  datatype Temperature = Temperature(value: real, unit: TemperatureUnit := Celsius) {

    /** toCelsius: a Celsius reading; a reading already in Celsius is returned as it is. */
    function ToCelsius(): (t: Temperature)
      ensures t.unit == Celsius
      ensures unit == Celsius ==> t == this
    {
      match unit
      case Fahrenheit => Temperature(((value - 32.0) * 5.0) / 9.0, Celsius)
      case Kelvin => Temperature(value - 273.15, Celsius)
      case Celsius => this
    }

    /**
     * toFahrenheit as written: a Fahrenheit reading; a reading already in
     * Fahrenheit is returned as it is. The Kelvin branch computes
     * `((value - 273, 15) * 9) / 5 + 32`, where `(value - 273, 15)` is a
     * comma expression worth 15, so every Kelvin reading becomes 59 °F.
     */
    function ToFahrenheit(): (t: Temperature)
      ensures t.unit == Fahrenheit
      ensures unit == Fahrenheit ==> t == this
      ensures unit == Kelvin ==> t.value == 59.0
    {
      match unit
      case Celsius => Temperature((value * 9.0) / 5.0 + 32.0, Fahrenheit)
      case Kelvin => Temperature((Comma(value - 273.0, 15.0) * 9.0) / 5.0 + 32.0, Fahrenheit)
      case Fahrenheit => this
    }

    /**
     * toFahrenheit as evidently intended: the Kelvin branch subtracts 273.15,
     * so that Kelvin to Fahrenheit goes through Celsius like every other
     * pair of units.
     */
    function ToFahrenheitIntended(): (t: Temperature)
      ensures t.unit == Fahrenheit
      ensures unit == Fahrenheit ==> t == this
      ensures unit != Kelvin ==> t == ToFahrenheit()
    {
      match unit
      case Celsius => Temperature((value * 9.0) / 5.0 + 32.0, Fahrenheit)
      case Kelvin => Temperature(((value - 273.15) * 9.0) / 5.0 + 32.0, Fahrenheit)
      case Fahrenheit => this
    }

    /** toKelvin: a Kelvin reading; a reading already in Kelvin is returned as it is. */
    function ToKelvin(): (t: Temperature)
      ensures t.unit == Kelvin
      ensures unit == Kelvin ==> t == this
    {
      match unit
      case Celsius => Temperature(value + 273.15, Kelvin)
      case Fahrenheit => Temperature(((value - 32.0) * 5.0) / 9.0 + 273.15, Kelvin)
      case Kelvin => this
    }
  }

  /** HumidityUnits: relative humidity has the one unit percent. */
  datatype HumidityUnit = Percent {
    function Symbol(): (s: string) {
      "%"
    }
  }

  /** A humidity reading. `Humidity(v)` defaults to percent, as `new Humidity(v)` does. */
  datatype Humidity = Humidity(value: real, unit: HumidityUnit := Percent)

  /** A temperature constructed without a unit keeps its value and is in degrees Celsius. */
  lemma DefaultTemperatureUnit(v: real)
    ensures Temperature(v) == Temperature(v, Celsius) && Temperature(v).value == v
  {
  }

  /** A humidity constructed without a unit keeps its value and is in percent. */
  lemma DefaultHumidityUnit(v: real)
    ensures Humidity(v) == Humidity(v, Percent) && Humidity(v).value == v
  {
  }

  /** The units are told apart by their symbols. */
  lemma SymbolsDistinct(u: TemperatureUnit, w: TemperatureUnit)
    ensures u.Symbol() == w.Symbol() <==> u == w
  {
  }

  /** Converting twice to the same unit is converting once: the second call returns its receiver. */
  lemma ConversionsIdempotent(t: Temperature)
    ensures t.ToCelsius().ToCelsius() == t.ToCelsius()
    ensures t.ToFahrenheit().ToFahrenheit() == t.ToFahrenheit()
    ensures t.ToKelvin().ToKelvin() == t.ToKelvin()
  {
  }

  /**
   * Fahrenheit to Kelvin is composed through Celsius: it performs exactly
   * the operations of toCelsius followed by toKelvin, so it agrees with
   * them even in floating point.
   */
  lemma KelvinFromFahrenheitViaCelsius(t: Temperature)
    requires t.unit != Kelvin
    ensures t.ToKelvin() == t.ToCelsius().ToKelvin()
  {
  }

  /**
   * As written, Kelvin to Fahrenheit ignores the reading: any two Kelvin
   * temperatures, however far apart, convert to the same Fahrenheit value.
   */
  lemma KelvinToFahrenheitIgnoresReading(t: Temperature, u: Temperature)
    requires t.unit == Kelvin && u.unit == Kelvin
    ensures t.ToFahrenheit() == u.ToFahrenheit()
  {
  }

  /**
   * As written, Kelvin to Fahrenheit disagrees with the route through
   * Celsius: 0 K becomes 59 °F, while toCelsius followed by toFahrenheit
   * lands below -459 °F (-459.67 in exact arithmetic; the bound leaves room
   * for the rounding of doubles).
   */
  lemma KelvinToFahrenheitDefect()
    ensures Temperature(0.0, Kelvin).ToCelsius().ToFahrenheit().value < -459.0
    ensures Temperature(0.0, Kelvin).ToFahrenheit() != Temperature(0.0, Kelvin).ToCelsius().ToFahrenheit()
  {
  }

  /**
   * The intended Kelvin to Fahrenheit conversion is composed through
   * Celsius, performing exactly the operations of toCelsius followed by
   * toFahrenheit; with the same-unit identities, every target unit is then
   * reached through Celsius.
   */
  lemma FahrenheitIntendedViaCelsius(t: Temperature)
    requires t.unit != Fahrenheit
    ensures t.ToFahrenheitIntended() == t.ToCelsius().ToFahrenheit()
  {
  }
}
