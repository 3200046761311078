/** `Convert.UnitSystem`: the display unit of each quantity under the metric
    or the imperial system. Any system value other than IMPERIAL selects the
    metric unit. */
module UnitSystem {
  import opened Results
  import Convert

  type Code = Convert.Code

  const METRIC: int := 1
  const IMPERIAL: int := 2

  function Temperature(system: int): (r: Code)
    ensures Convert.TempTabulated(r)
  {
    if system == IMPERIAL then Convert.FAHRENHEIT else Convert.CELSIUS
  }

  function Speed(system: int): (r: Code)
    ensures Convert.HasTimeRate(r) && Convert.Tabulated(Convert.Distance, Convert.Strip(r))
  {
    if system == IMPERIAL then Convert.MILE | Convert.TIME_DIV | Convert.HOUR
    else Convert.KM | Convert.TIME_DIV | Convert.HOUR
  }

  /** Spelled `FuelConsumpiton` in the source. */
  function FuelConsumption(system: int): (r: Code)
    ensures Convert.Tabulated(Convert.FuelConsumption, r)
  {
    if system == IMPERIAL then Convert.TONS_PER_ACRE else Convert.KG_PER_M2
  }

  function Intensity(system: int): (r: Code)
    ensures Convert.Tabulated(Convert.Intensity, r)
  {
    if system == IMPERIAL then Convert.BTU_FT_S else Convert.KILOWATT_PER_M
  }

  function SpreadRate(system: int): (r: Code)
    ensures Convert.HasTimeRate(r) && Convert.Tabulated(Convert.Distance, Convert.Strip(r))
  {
    if system == IMPERIAL then Convert.CHAIN | Convert.TIME_DIV | Convert.HOUR
    else Convert.M | Convert.TIME_DIV | Convert.MINUTE
  }

  function Area(system: int): (r: Code)
    ensures Convert.Tabulated(Convert.Area, r)
  {
    if system == IMPERIAL then Convert.ACRE else Convert.HECTARE
  }

  function DistanceSmall(system: int): (r: Code)
    ensures Convert.Tabulated(Convert.Distance, r)
  {
    if system == IMPERIAL then Convert.INCH else Convert.MM
  }

  function DistanceSmall2(system: int): (r: Code)
    ensures Convert.Tabulated(Convert.Distance, r)
  {
    if system == IMPERIAL then Convert.INCH else Convert.CM
  }

  function DistanceMedium(system: int): (r: Code)
    ensures Convert.Tabulated(Convert.Distance, r)
  {
    if system == IMPERIAL then Convert.FOOT else Convert.M
  }

  function DistanceMedium2(system: int): (r: Code)
    ensures Convert.Tabulated(Convert.Distance, r)
  {
    if system == IMPERIAL then Convert.CHAIN else Convert.M
  }

  function DistanceLarge(system: int): (r: Code)
    ensures Convert.Tabulated(Convert.Distance, r)
  {
    if system == IMPERIAL then Convert.MILE else Convert.KM
  }

  /** The quantities the getters cover. */
  datatype Quantity =
    | TemperatureQ | SpeedQ | FuelConsumptionQ | IntensityQ | SpreadRateQ | AreaQ
    | DistanceSmallQ | DistanceSmall2Q | DistanceMediumQ | DistanceMedium2Q | DistanceLargeQ

  function Unit(q: Quantity, system: int): Code {
    match q
    case TemperatureQ => Temperature(system)
    case SpeedQ => Speed(system)
    case FuelConsumptionQ => FuelConsumption(system)
    case IntensityQ => Intensity(system)
    case SpreadRateQ => SpreadRate(system)
    case AreaQ => Area(system)
    case DistanceSmallQ => DistanceSmall(system)
    case DistanceSmall2Q => DistanceSmall2(system)
    case DistanceMediumQ => DistanceMedium(system)
    case DistanceMedium2Q => DistanceMedium2(system)
    case DistanceLargeQ => DistanceLarge(system)
  }

  /** Only IMPERIAL is special: every other system value, known or not, reads
      as METRIC; and the two systems name different units for every quantity. */
  lemma SystemChoice(q: Quantity, system: int)
    ensures Unit(q, system) == Unit(q, if system == IMPERIAL then IMPERIAL else METRIC)
    ensures Unit(q, METRIC) != Unit(q, IMPERIAL)
  {
  }

  /** The two small-distance getters agree in imperial units only. */
  lemma SmallDistancesShareImperialUnit()
    ensures DistanceSmall(IMPERIAL) == DistanceSmall2(IMPERIAL)
    ensures DistanceSmall(METRIC) != DistanceSmall2(METRIC)
  {
  }

  /** Speeds share the HOUR rate, so converting them is the distance ratio:
      one mile an hour is 1.609344 kilometres an hour. */
  lemma SpeedFactor(value: real)
    ensures Convert.ConvertUnit(value, Speed(METRIC), Speed(IMPERIAL)) == Ok(value * 1.609344)
  {
    assert Convert.ApplyTime(value, Speed(METRIC), Speed(IMPERIAL), Convert.YEAR_SECONDS) == (value, Convert.MILE, Convert.KM);
    Convert.DispatchDistance(value, Convert.KM, Convert.MILE);
  }

  /** Spread rates differ in both distance and rate: one chain an hour is
      20.1168 metres over sixty minutes. */
  lemma SpreadRateFactor(value: real)
    ensures Convert.ConvertUnit(value, SpreadRate(METRIC), SpreadRate(IMPERIAL)) == Ok(value / 60.0 * 20.1168)
  {
    var from, to := SpreadRate(IMPERIAL), SpreadRate(METRIC);
    var v := value / 60.0;
    assert Convert.ApplyTime(value, to, from, Convert.YEAR_SECONDS) == (v, Convert.CHAIN, Convert.M);
    Convert.DispatchDistance(v, Convert.M, Convert.CHAIN);
    assert Convert.Ordinal(Convert.Distance, Convert.CHAIN) == 7;
    assert Convert.Ordinal(Convert.Distance, Convert.M) == 2;
    ChainsToMetres(v, Convert.Table(Convert.Distance));
  }

  /** One chain is 20.1168 metres in the distance table. */
  lemma ChainsToMetres(v: real, t: seq<real>)
    requires t == Convert.Table(Convert.Distance)
    ensures Convert.AllPositive(t)
    ensures Convert.Ratio(v, t, 7, 2) == Ok(v * 20.1168)
  {
    Convert.TablePositive(Convert.Distance);
    assert t[7] == 20.1168 && t[2] == 1.0;
    var r := Convert.Ratio(v, t, 7, 2);
    assert r.Ok?;
    assert r.value == v * t[7] / t[2];
    assert v * t[7] / t[2] == v * 20.1168;
  }

  /** Converting `value` from unit `i` to unit `m` succeeds, and converting
      the result back gives `value` again. */
  predicate RoundTrips(value: real, m: Code, i: Code) {
    var there := Convert.ConvertUnit(value, i, m);
    there.Ok? && Convert.ConvertUnit(there.value, m, i) == Ok(value)
  }

  /** Converting a quantity from imperial to metric units and back returns
      the value. */
  lemma RatioRoundTrips(d: Convert.RatioDimension, value: real, m: Code, i: Code)
    requires Convert.Tabulated(d, m) && Convert.Tabulated(d, i)
    ensures RoundTrips(value, m, i)
  {
    Convert.RatioRoundTrip(d, value, m, i);
  }

  lemma TemperatureRoundTrips(value: real, m: Code, i: Code)
    requires Convert.InRange(m, Convert.KELVIN, Convert.RANKINE)
    requires Convert.InRange(i, Convert.KELVIN, Convert.RANKINE)
    ensures RoundTrips(value, m, i)
  {
    Convert.TemperatureRoundTrip(value, m, i);
  }

  lemma SystemRoundTrip(q: Quantity, value: real)
    ensures RoundTrips(value, Unit(q, METRIC), Unit(q, IMPERIAL))
  {
    match q
    case TemperatureQ => TemperatureRoundTrips(value, Convert.CELSIUS, Convert.FAHRENHEIT);
    case SpeedQ => SpeedRoundTrip(value);
    case FuelConsumptionQ =>
      RatioRoundTrips(Convert.FuelConsumption, value, Convert.KG_PER_M2, Convert.TONS_PER_ACRE);
    case IntensityQ =>
      RatioRoundTrips(Convert.Intensity, value, Convert.KILOWATT_PER_M, Convert.BTU_FT_S);
    case SpreadRateQ => SpreadRateRoundTrip(value);
    case AreaQ => RatioRoundTrips(Convert.Area, value, Convert.HECTARE, Convert.ACRE);
    case _ => DistanceRoundTrips(q, value);
  }

  /** The distance quantities of `SystemRoundTrip`. */
  lemma DistanceRoundTrips(q: Quantity, value: real)
    requires q.DistanceSmallQ? || q.DistanceSmall2Q? || q.DistanceMediumQ? || q.DistanceMedium2Q? || q.DistanceLargeQ?
    ensures RoundTrips(value, Unit(q, METRIC), Unit(q, IMPERIAL))
  {
    match q
    case DistanceSmallQ => RatioRoundTrips(Convert.Distance, value, Convert.MM, Convert.INCH);
    case DistanceSmall2Q => RatioRoundTrips(Convert.Distance, value, Convert.CM, Convert.INCH);
    case DistanceMediumQ => RatioRoundTrips(Convert.Distance, value, Convert.M, Convert.FOOT);
    case DistanceMedium2Q => RatioRoundTrips(Convert.Distance, value, Convert.M, Convert.CHAIN);
    case DistanceLargeQ => RatioRoundTrips(Convert.Distance, value, Convert.KM, Convert.MILE);
  }

  lemma SpeedRoundTrip(value: real)
    ensures Convert.ConvertUnit(value, Speed(IMPERIAL), Speed(METRIC)).Ok?
    ensures Convert.ConvertUnit(Convert.ConvertUnit(value, Speed(IMPERIAL), Speed(METRIC)).value,
                                Speed(METRIC), Speed(IMPERIAL)) == Ok(value)
  {
    var m, i := Speed(METRIC), Speed(IMPERIAL);
    assert Convert.ApplyTime(value, i, m, Convert.YEAR_SECONDS) == (value, Convert.KM, Convert.MILE);
    Convert.DispatchDistance(value, Convert.MILE, Convert.KM);
    var mid := Convert.ConvertUnit(value, i, m).value;
    assert Convert.ApplyTime(mid, m, i, Convert.YEAR_SECONDS) == (mid, Convert.MILE, Convert.KM);
    Convert.DispatchDistance(mid, Convert.KM, Convert.MILE);
    Convert.RatioBack(value, Convert.Table(Convert.Distance),
                      Convert.Ordinal(Convert.Distance, Convert.KM), Convert.Ordinal(Convert.Distance, Convert.MILE));
  }

  lemma SpreadRateRoundTrip(value: real)
    ensures Convert.ConvertUnit(value, SpreadRate(IMPERIAL), SpreadRate(METRIC)).Ok?
    ensures Convert.ConvertUnit(Convert.ConvertUnit(value, SpreadRate(IMPERIAL), SpreadRate(METRIC)).value,
                                SpreadRate(METRIC), SpreadRate(IMPERIAL)) == Ok(value)
  {
    var m, i := SpreadRate(METRIC), SpreadRate(IMPERIAL);
    assert Convert.ApplyTime(value, i, m, Convert.YEAR_SECONDS) == (value * 60.0, Convert.M, Convert.CHAIN);
    Convert.DispatchDistance(value * 60.0, Convert.CHAIN, Convert.M);
    var mid := Convert.ConvertUnit(value, i, m).value;
    assert Convert.ApplyTime(mid, m, i, Convert.YEAR_SECONDS) == (mid / 60.0, Convert.CHAIN, Convert.M);
    Convert.DispatchDistance(mid / 60.0, Convert.M, Convert.CHAIN);
  }
}
