/** The unit-conversion engine of `ca.hss.math.Convert`.

    A unit is a packed 64-bit code. In the low 32 bits each dimension owns a
    contiguous range of ordinals; a time-rate field (bits 16..20) may be OR'd
    onto a non-time unit ("per hour", "in hours"), and angle codes carry a
    rotation bit and unit bits (bits 24..27) on top of the base value 0x4b0.
    A nonzero upper half makes the code composite: upper half over lower half.

    ConvertUnit keeps the Java argument order `(value, to, from)`: the
    composite branch depends on it. Doubles are reals, so every equality
    stated here holds over the reals and says nothing about IEEE rounding. */
module Convert {
  import opened Results
  import opened General

  type Code = bv64

  // ---------------------------------------------------------------------
  // Dimension ranges (class STORAGE)

  const TIME_START: Code := 0x0001_0000
  const TIME_END: Code := 0x001f_0000
  const DISTANCE_START: Code := 0x0001
  const DISTANCE_END: Code := 0x000b
  const AREA_START: Code := 0x0100
  const AREA_END: Code := 0x0109
  const VOLUME_START: Code := 0x0200
  const VOLUME_END: Code := 0x0216
  const TEMP_START: Code := 0x0400
  const TEMP_END: Code := 0x0404
  const PRESSURE_START: Code := 0x0500
  const PRESSURE_END: Code := 0x0504
  const MASS_START: Code := 0x0600
  const MASS_END: Code := 0x0607
  const ENERGY_START: Code := 0x0700
  const ENERGY_END: Code := 0x070a
  const PERCENT_START: Code := 0x04c0
  const PERCENT_END: Code := 0x04c3
  const FUEL_CONSUMPTION_START: Code := 0x0900
  const FUEL_CONSUMPTION_END: Code := 0x0909
  const INTENSITY_START: Code := 0x0910
  const INTENSITY_END: Code := 0x0919

  // ---------------------------------------------------------------------
  // Unit codes and sub-field masks (class STORAGE_FORMAT)

  const MICROSECOND: Code := 0x0008_0000
  const MILLISECOND: Code := 0x0009_0000
  const SECOND: Code := 0x0001_0000
  const MINUTE: Code := 0x0002_0000
  const HOUR: Code := 0x0003_0000
  const DAY: Code := 0x0004_0000
  const WEEK: Code := 0x0005_0000
  const MONTH: Code := 0x0006_0000
  const YEAR: Code := 0x0007_0000
  const DECADE: Code := 0x000a_0000
  const CENTURY: Code := 0x000b_0000
  /** "per" a calendar unit, the default */
  const TIME_DIV: Code := 0x0000_0000
  /** "in" a calendar unit */
  const TIME_MULT: Code := 0x0010_0000
  const TIME_UNIT_MASK: Code := 0x000f_0000
  const TIME_MASK: Code := 0x001f_0000

  const MM: Code := 0x01
  const CM: Code := 0x02
  const M: Code := 0x03
  const KM: Code := 0x04
  const INCH: Code := 0x05
  const FOOT: Code := 0x06
  const YARD: Code := 0x07
  const CHAIN: Code := 0x08
  const MILE: Code := 0x09
  const NAUTICAL_MILE: Code := 0x0a
  const NAUTICAL_MILE_UK: Code := 0x0b

  const HECTARE: Code := 0x0103
  const ACRE: Code := 0x0108

  const LITRE: Code := 0x0202
  const M3: Code := 0x0203

  const KELVIN: Code := 0x0400
  const CELSIUS: Code := 0x0401
  const FAHRENHEIT: Code := 0x0402
  const RANKINE: Code := 0x0403

  const KG: Code := 0x0602
  const GRAM: Code := 0x0601
  const LB: Code := 0x0605

  const JOULE: Code := 0x0700
  const WATT: Code := 0x0707
  const KILOWATT: Code := 0x0708
  const KILOJOULE: Code := 0x070a
  /** watt-hour: a watt "in hours" */
  const WATT_HOUR: Code := WATT | HOUR | TIME_MULT
  const KILOWATT_HOUR: Code := KILOWATT | HOUR | TIME_MULT

  const DECIMAL: Code := 0x04c0
  const PERCENT: Code := 0x04c1
  /** stored as 15% but shown as 85% */
  const DECIMAL_INVERT: Code := 0x04c2
  const PERCENT_INVERT: Code := 0x04c3

  const ANGLE: Code := 0x04b0
  const RADIAN: Code := 0x0000_0000
  const CARTESIAN: Code := 0x0000_0000
  const COMPASS: Code := 0x0100_0000
  const DEGREE: Code := 0x0200_0000
  const ARCSECOND: Code := 0x0400_0000
  const ANGLE_ROTATION_MASK: Code := 0x0100_0000
  const ANGLE_UNIT_MASK: Code := 0x0e00_0000
  const ANGLE_MASK: Code := 0x0f00_0000

  const TONS_PER_ACRE: Code := 0x0900
  const KG_PER_M2: Code := 0x0901
  const BTU_FT_S: Code := 0x0910
  const KILOWATT_PER_M: Code := 0x0911

  const LOW_HALF: Code := 0x0000_0000_ffff_ffff
  const HIGH_HALF: Code := 0xffff_ffff_0000_0000

  // ---------------------------------------------------------------------
  // Translation tables: base units per one of the unit at that ordinal

  const DistanceTable: seq<real> :=
    [0.001, 0.01, 1.0, 1000.0, 0.0254, 0.3048, 0.9144, 20.1168, 1609.344, 1852.0, 1853.184]
  const AreaTable: seq<real> :=
    [0.000001, 0.0001, 1.0, 10000.0, 1000000.0, 0.00064516, 0.09290304, 0.83612736,
     4046.8564224, 2589988.11]
  const VolumeTable: seq<real> :=
    [0.000000001, 0.000001, 0.001, 1.0, 1000000000.0, 0.000016387064, 0.028316846,
     0.764554858, 4168181825.0, 0.0000284131, 0.000568261, 0.00113652, 0.00454609,
     0.0363687, 0.00000369669, 0.0000295735, 0.000473176, 0.000946353, 0.003785411784,
     0.158987, 0.000550610, 0.00110122, 0.00110122]
  /** Additive offsets into Kelvin, indexed KELVIN, CELSIUS, FAHRENHEIT, RANKINE. */
  const TempOffset: seq<real> := [0.0, 273.15, 459.67, 0.0]
  /** Multiplicative scales from Kelvin, same indexing. */
  const TempScale: seq<real> := [1.0, 1.0, 9.0 / 5.0, 9.0 / 5.0]
  const MassTable: seq<real> :=
    [0.000001, 0.001, 1.0, 1000.0, 0.0283495, 0.45359237, 907.185, 1016.047]
  const EnergyTable: seq<real> :=
    [1.0, 0.00000000000000000016021892, 0.0000001, 1.35582, 4.1868, 9.80665, 1055.06,
     3600.0 / 3600.0, 3600000.0 / 3600.0, 105506000.0, 1000.0]
  const PressureTable: seq<real> := [1.0, 6.895, 100.0, 101.325, 0.133322]
  const IntensityTable: seq<real> := [3.461, 1.0]
  const ConsumptionTable: seq<real> := [0.2242, 1.0]

  /** Seconds in a year on the live calendar path. */
  const YEAR_SECONDS: real := 31556926.0
  /** The year constant of the pure-time branch, ten times the live one. */
  const PURE_TIME_YEAR_SECONDS: real := 315569260.0

  predicate AllPositive(t: seq<real>) {
    forall i | 0 <= i < |t| :: t[i] > 0.0
  }

  // ---------------------------------------------------------------------
  // Code structure

  predicate InRange(c: Code, lo: Code, hi: Code) {
    lo <= c && c <= hi
  }

  function Upper(c: Code): Code {
    (c >> 32) & LOW_HALF
  }

  function Lower(c: Code): Code {
    c & LOW_HALF
  }

  /** Either code has a nonzero upper half. */
  predicate IsComposite(to: Code, from: Code) {
    from & HIGH_HALF != 0 || to & HIGH_HALF != 0
  }

  /** A unit that carries both time-rate bits and non-time bits. */
  predicate HasTimeRate(c: Code) {
    c & TIME_MASK != 0 && c & !TIME_MASK != 0
  }

  // ---------------------------------------------------------------------
  // Calendar scaling

  /** The chain applied for an "in" source or a "per" target: it multiplies
      by the unit's length in seconds. The MICROSECOND and MILLISECOND
      literals are the source's (1000 and 1e6). */
  function ScaleUp(value: real, unit: Code, year: real): real {
    if unit == MICROSECOND then value / 1000.0
    else if unit == MILLISECOND then value / 1000000.0
    else if unit == MINUTE then value * 60.0
    else if unit == HOUR then value * (60.0 * 60.0)
    else if unit == DAY then value * (24.0 * 60.0 * 60.0)
    else if unit == WEEK then value * 604800.0
    else if unit == MONTH then value * 2629743.83
    else if unit == YEAR then value * year
    else if unit == DECADE then value * 315569260.0
    else if unit == CENTURY then value * 3155692600.0
    else value
  }

  /** The chain applied for a "per" source or an "in" target. */
  function ScaleDown(value: real, unit: Code, year: real): real
    requires year > 0.0
  {
    if unit == MICROSECOND then value * 1000.0
    else if unit == MILLISECOND then value * 1000000.0
    else if unit == MINUTE then value / 60.0
    else if unit == HOUR then value / (60.0 * 60.0)
    else if unit == DAY then value / (24.0 * 60.0 * 60.0)
    else if unit == WEEK then value / 604800.0
    else if unit == MONTH then value / 2629743.83
    else if unit == YEAR then value / year
    else if unit == DECADE then value / 315569260.0
    else if unit == CENTURY then value / 3155692600.0
    else value
  }

  /** Reference table: the length in seconds that each chain encodes
      (SECOND and unknown unit fields scale by one). */
  function SecondsPer(unit: Code, year: real): real {
    match unit
    case 0x0008_0000 => 0.001
    case 0x0009_0000 => 0.000001
    case 0x0002_0000 => 60.0
    case 0x0003_0000 => 3600.0
    case 0x0004_0000 => 86400.0
    case 0x0005_0000 => 604800.0
    case 0x0006_0000 => 2629743.83
    case 0x0007_0000 => year
    case 0x000a_0000 => 315569260.0
    case 0x000b_0000 => 3155692600.0
    case _ => 1.0
  }

  /** The source code's time field: "in" scales up, "per" scales down. */
  function SourceScale(value: real, from: Code, year: real): real
    requires year > 0.0
  {
    if from & TIME_MULT != 0 then ScaleUp(value, from & TIME_UNIT_MASK, year)
    else ScaleDown(value, from & TIME_UNIT_MASK, year)
  }

  /** The target code's time field: the opposite chain. */
  function TargetScale(value: real, to: Code, year: real): real
    requires year > 0.0
  {
    if to & TIME_MULT != 0 then ScaleDown(value, to & TIME_UNIT_MASK, year)
    else ScaleUp(value, to & TIME_UNIT_MASK, year)
  }

  function CalendarRescale(value: real, to: Code, from: Code, year: real): (r: real)
    requires year > 0.0
    ensures r == value * RateFactor(from, year) / RateFactor(to, year)
  {
    SourceSide(value, from, year);
    TargetSide(value * RateFactor(from, year), to, year);
    TargetScale(SourceScale(value, from, year), to, year)
  }

  /** The time-rate step of ConvertUnit: when both codes are nonzero, rescale
      if a code mixes time and non-time bits and the time fields differ, and
      in any case strip the time bits of both codes. `year` is the length of
      a year in seconds the chains use; ConvertUnit passes YEAR_SECONDS.
      Returns the value and the codes as (value, from, to). */
  function ApplyTime(value: real, to: Code, from: Code, year: real): (r: (real, Code, Code))
    requires year > 0.0
    ensures from == 0 || to == 0 ==> r == (value, from, to)
    ensures from != 0 && to != 0 ==> r.1 == Strip(from) && r.2 == Strip(to)
    ensures !(HasTimeRate(from) || HasTimeRate(to)) || from & TIME_MASK == to & TIME_MASK ==> r.0 == value
    ensures from != 0 && to != 0 && (HasTimeRate(from) || HasTimeRate(to)) && from & TIME_MASK != to & TIME_MASK ==>
              r.0 == value * RateFactor(from, year) / RateFactor(to, year)
  {
    if from == 0 || to == 0 then (value, from, to)
    else if (HasTimeRate(from) || HasTimeRate(to)) && from & TIME_MASK != to & TIME_MASK then
      (CalendarRescale(value, to, from, year), Strip(from), Strip(to))
    else
      (value, Strip(from), Strip(to))
  }

  /** `c` with its time field cleared: exactly the other bits are kept. */
  function Strip(c: Code): (s: Code)
    ensures s & TIME_MASK == 0
    ensures s | (c & TIME_MASK) == c
  {
    c & !TIME_MASK
  }

  // ---------------------------------------------------------------------
  // Per-dimension algorithms

  // ---------------------------------------------------------------------
  // Table-driven dimensions

  /** The table-driven dimensions. */
  datatype RatioDimension =
    Distance | Area | Volume | Mass | Energy | Pressure | Intensity | FuelConsumption

  function Start(d: RatioDimension): Code {
    match d
    case Distance => DISTANCE_START
    case Area => AREA_START
    case Volume => VOLUME_START
    case Mass => MASS_START
    case Energy => ENERGY_START
    case Pressure => PRESSURE_START
    case Intensity => INTENSITY_START
    case FuelConsumption => FUEL_CONSUMPTION_START
  }

  function End(d: RatioDimension): Code {
    match d
    case Distance => DISTANCE_END
    case Area => AREA_END
    case Volume => VOLUME_END
    case Mass => MASS_END
    case Energy => ENERGY_END
    case Pressure => PRESSURE_END
    case Intensity => INTENSITY_END
    case FuelConsumption => FUEL_CONSUMPTION_END
  }

  function Table(d: RatioDimension): seq<real> {
    match d
    case Distance => DistanceTable
    case Area => AreaTable
    case Volume => VolumeTable
    case Mass => MassTable
    case Energy => EnergyTable
    case Pressure => PressureTable
    case Intensity => IntensityTable
    case FuelConsumption => ConsumptionTable
  }

  /** `c` lies in the range that dimension `d` owns. */
  predicate UnitOf(d: RatioDimension, c: Code) {
    InRange(c, Start(d), End(d))
  }

  /** The position of `c` within `d`'s range: its index into `d`'s table. */
  function Ordinal(d: RatioDimension, c: Code): nat
    requires UnitOf(d, c)
  {
    (c - Start(d)) as nat
  }

  /** `c` lies in `d`'s range and its ordinal has a table entry. */
  predicate Tabulated(d: RatioDimension, c: Code) {
    UnitOf(d, c) && Ordinal(d, c) < |Table(d)|
  }

  /** Base units per one `c`. */
  function Factor(d: RatioDimension, c: Code): real
    requires Tabulated(d, c)
  {
    Table(d)[Ordinal(d, c)]
  }

  /** `value * t[i] / t[j]`; an ordinal past the end of the table is Java's
      ArrayIndexOutOfBoundsException. */
  function Ratio(value: real, t: seq<real>, i: nat, j: nat): (r: Result<real>)
    requires AllPositive(t)
    ensures r.Ok? <==> i < |t| && j < |t|
    ensures r.Ok? || r == Err(IndexOutOfBounds)
  {
    if i >= |t| || j >= |t| then Err(IndexOutOfBounds)
    else Ok(value * t[i] / t[j])
  }

  /** The table step of dimension `d`: the ordinals of two codes in `d`'s
      range index its table. */
  function Lookup(d: RatioDimension, value: real, to: Code, from: Code): (r: Result<real>)
    requires UnitOf(d, from) && UnitOf(d, to)
    ensures r.Ok? <==> Tabulated(d, from) && Tabulated(d, to)
    ensures r.Ok? || r == Err(IndexOutOfBounds)
  {
    TablePositive(d);
    Ratio(value, Table(d), Ordinal(d, from), Ordinal(d, to))
  }

  /** `c` is a temperature code with an entry in the offset and scale tables. */
  predicate TempTabulated(c: Code) {
    TEMP_START <= c && ((c - TEMP_START) as int) < |TempOffset|
  }

  /** The temperature `v` in unit `c`, read as Kelvin. */
  function Kelvin(v: real, c: Code): real
    requires TempTabulated(c)
  {
    var i := (c - TEMP_START) as int;
    assert TempScale[i] > 0.0;
    (v + TempOffset[i]) / TempScale[i]
  }

  /** Affine conversion pivoting through Kelvin: the result denotes the same
      Kelvin temperature; a code past the tables is Java's
      ArrayIndexOutOfBoundsException. */
  function Temperature(value: real, to: Code, from: Code): (r: Result<real>)
    requires TEMP_START <= from && TEMP_START <= to
    ensures r.Ok? <==> TempTabulated(from) && TempTabulated(to)
    ensures r.Ok? || r == Err(IndexOutOfBounds)
    ensures r.Ok? ==> Kelvin(r.value, to) == Kelvin(value, from)
  {
    var i, j := (from - TEMP_START) as int, (to - TEMP_START) as int;
    if i >= |TempOffset| || j >= |TempOffset| then Err(IndexOutOfBounds)
    else
      var kelvin := (value + TempOffset[i]) / TempScale[i];
      var out := kelvin * TempScale[j] - TempOffset[j];
      assert TempScale[j] > 0.0;
      assert (out + TempOffset[j]) / TempScale[j] == kelvin;
      Ok(out)
  }

  /** The plain fraction that `v` denotes in percent-family unit `c`. */
  function Fraction(v: real, c: Code): real {
    if c == PERCENT then v / 100.0
    else if c == PERCENT_INVERT then 1.0 - v / 100.0
    else if c == DECIMAL_INVERT then 1.0 - v
    else v
  }

  /** Normalise the source to a decimal, then denormalise to the target,
      each by the literal per-member rule of the source. The denoted fraction
      is kept, except that the PERCENT_INVERT rule `(100 - d) * 100` lands 99
      below it. */
  function Percent(value: real, to: Code, from: Code): (r: real)
    ensures from == to ==> r == value
    ensures from != to && to != PERCENT_INVERT ==> Fraction(r, to) == Fraction(value, from)
    ensures from != to && to == PERCENT_INVERT ==> Fraction(r, to) == Fraction(value, from) - 99.0
  {
    if from == to then value
    else
      var d := if from == PERCENT then value * 0.01
               else if from == PERCENT_INVERT then (100.0 - value) * 0.01
               else if from == DECIMAL_INVERT then 1.0 - value
               else value;
      if to == PERCENT then d * 100.0
      else if to == PERCENT_INVERT then (100.0 - d) * 100.0
      else if to == DECIMAL_INVERT then 1.0 - d
      else d
  }

  /** The angle `v` in angle code `c`, in radians. A unit field other than
      DEGREE or ARCSECOND is read as radians. */
  function AsRadians(v: real, c: Code): real {
    if c & ANGLE_UNIT_MASK == DEGREE then DegreeToRadian(v)
    else if c & ANGLE_UNIT_MASK == ARCSECOND then DegreeToRadian(v / 3600.0)
    else v
  }

  /** The cartesian direction, in radians, that `v` in angle code `c` points
      to: a compass bearing is measured clockwise from north. */
  function Direction(v: real, c: Code): real {
    if c & ANGLE_ROTATION_MASK == COMPASS then PI / 2.0 - AsRadians(v, c) else AsRadians(v, c)
  }

  /** Source unit to radians, source compass to cartesian, cartesian to target
      compass, radians to target unit. The result points in the same direction
      up to whole turns; exactly so between cartesian codes; a compass target
      is normalised into one turn. */
  function Angle(value: real, to: Code, from: Code): (r: real)
    ensures from & ANGLE_MASK == to & ANGLE_MASK ==> r == value
    ensures from & ANGLE_MASK != to & ANGLE_MASK ==> SameAngle(Direction(r, to), Direction(value, from), PI * 2.0)
    ensures from & ANGLE_ROTATION_MASK != COMPASS && to & ANGLE_ROTATION_MASK != COMPASS ==>
              AsRadians(r, to) == AsRadians(value, from)
    ensures from & ANGLE_MASK != to & ANGLE_MASK && to & ANGLE_ROTATION_MASK == COMPASS ==>
              0.0 <= AsRadians(r, to) <= PI * 2.0
  {
    if from & ANGLE_MASK == to & ANGLE_MASK then
      assert from & ANGLE_UNIT_MASK == to & ANGLE_UNIT_MASK by { SharedUnit(from, to); }
      value
    else
      var r1 := if from & ANGLE_UNIT_MASK == DEGREE then DegreeToRadian(value)
                else if from & ANGLE_UNIT_MASK == ARCSECOND then DegreeToRadian(value / 3600.0)
                else value;
      var r2 := if from & ANGLE_ROTATION_MASK == COMPASS then CompassToCartesianRadian(r1) else r1;
      var r3 := if to & ANGLE_ROTATION_MASK == COMPASS then CartesianToCompassRadian(r2) else r2;
      var r := if to & ANGLE_UNIT_MASK == DEGREE then RadianToDegree(r3)
               else if to & ANGLE_UNIT_MASK == ARCSECOND then RadianToDegree(r3) * 3600.0
               else r3;
      DegreeRadianInverse(r3);
      assert AsRadians(r, to) == r3;
      DirectionSteps(value, from, to, r1, r2, r3);
      r
  }

  /** Codes with the same angle field have the same unit field. */
  lemma SharedUnit(from: Code, to: Code)
    requires from & ANGLE_MASK == to & ANGLE_MASK
    ensures from & ANGLE_UNIT_MASK == to & ANGLE_UNIT_MASK
  {
    assert from & ANGLE_UNIT_MASK == (from & ANGLE_MASK) & ANGLE_UNIT_MASK;
    assert to & ANGLE_UNIT_MASK == (to & ANGLE_MASK) & ANGLE_UNIT_MASK;
  }

  /** The two rotations of Angle keep the direction, up to whole turns. */
  lemma DirectionSteps(value: real, from: Code, to: Code, r1: real, r2: real, r3: real)
    requires r1 == AsRadians(value, from)
    requires r2 == if from & ANGLE_ROTATION_MASK == COMPASS then CompassToCartesianRadian(r1) else r1
    requires r3 == if to & ANGLE_ROTATION_MASK == COMPASS then CartesianToCompassRadian(r2) else r2
    ensures SameAngle(if to & ANGLE_ROTATION_MASK == COMPASS then PI / 2.0 - r3 else r3,
                      Direction(value, from), PI * 2.0)
  {
    var base := PI * 2.0;
    var out := if to & ANGLE_ROTATION_MASK == COMPASS then PI / 2.0 - r3 else r3;
    assert SameAngle(r2, Direction(value, from), base) by {
      if from & ANGLE_ROTATION_MASK != COMPASS {
        assert r2 == Shift(Direction(value, from), 0, base);
      }
    }
    assert SameAngle(out, r2, base) by {
      if to & ANGLE_ROTATION_MASK == COMPASS {
        SameAngleReflected(r3, r2, PI / 2.0, base);
      } else {
        assert out == Shift(r2, 0, base);
      }
    }
    SameAngleTransitive(out, r2, Direction(value, from), base);
  }


  /** The pure-time branch: the calendar chains again, with the ten-fold
      year constant. ApplyTime makes it unreachable (PureTimeBranchUnreachable).
      Codes with the same time field keep the value. */
  function PureTime(value: real, to: Code, from: Code): (r: real)
    ensures from & TIME_MASK == to & TIME_MASK ==> r == value
  {
    ScalesInverse(value, from, PURE_TIME_YEAR_SECONDS);
    CalendarRescale(value, to, from, PURE_TIME_YEAR_SECONDS)
  }

  /** The dimension dispatch on time-stripped codes, in the source's order;
      codes in no common family fall through unchanged. */
  function Dispatch(value: real, to: Code, from: Code): Result<real> {
    if InRange(from, DISTANCE_START, DISTANCE_END) && InRange(to, DISTANCE_START, DISTANCE_END) then
      Lookup(Distance, value, to, from)
    else if InRange(from, TEMP_START, TEMP_END) && InRange(to, TEMP_START, TEMP_END) then
      Temperature(value, to, from)
    else if InRange(from, VOLUME_START, VOLUME_END) && InRange(to, VOLUME_START, VOLUME_END) then
      Lookup(Volume, value, to, from)
    else if InRange(from, AREA_START, AREA_END) && InRange(to, AREA_START, AREA_END) then
      Lookup(Area, value, to, from)
    else if InRange(from, PERCENT_START, PERCENT_END) && InRange(to, PERCENT_START, PERCENT_END) then
      Ok(Percent(value, to, from))
    else if InRange(from, MASS_START, MASS_END) && InRange(to, MASS_START, MASS_END) then
      Lookup(Mass, value, to, from)
    else if InRange(from, ENERGY_START, ENERGY_END) && InRange(to, ENERGY_START, ENERGY_END) then
      Lookup(Energy, value, to, from)
    else if InRange(from, PRESSURE_START, PRESSURE_END) && InRange(to, PRESSURE_START, PRESSURE_END) then
      Lookup(Pressure, value, to, from)
    else if InRange(from, INTENSITY_START, INTENSITY_END) && InRange(to, INTENSITY_START, INTENSITY_END) then
      Lookup(Intensity, value, to, from)
    else if InRange(from, FUEL_CONSUMPTION_START, FUEL_CONSUMPTION_END)
         && InRange(to, FUEL_CONSUMPTION_START, FUEL_CONSUMPTION_END) then
      Lookup(FuelConsumption, value, to, from)
    else if from & !ANGLE_MASK == ANGLE && to & !ANGLE_MASK == ANGLE then
      Ok(Angle(value, to, from))
    else if InRange(from, TIME_START, TIME_END) && InRange(to, TIME_START, TIME_END) then
      Ok(PureTime(value, to, from))
    else
      Ok(value)
  }

  /** The only fault of the dispatch is a table index past the end. */
  lemma DispatchFaults(value: real, to: Code, from: Code)
    ensures Dispatch(value, to, from).Ok? || Dispatch(value, to, from) == Err(IndexOutOfBounds)
  {
  }

  /** ConvertUnit(value, to_format, from_format). Equal codes return the value;
      a composite code converts the upper halves from source to target and
      then the lower halves from TARGET to SOURCE, each by a plain call. */
  function ConvertUnit(value: real, to: Code, from: Code): (r: Result<real>)
    ensures from == to ==> r == Ok(value)
    decreases if IsComposite(to, from) then 1 else 0
  {
    if from == to then Ok(value)
    else if IsComposite(to, from) then
      PlainHalves(to, from);
      var v :- ConvertUnit(value, Upper(to), Upper(from));
      ConvertUnit(v, Lower(from), Lower(to))
    else
      // `from &= 0xffffffff` ANDs with the int literal -1, which widens to
      // all ones: `from` is unchanged. `to &= 0xffffffffL` clears an upper
      // half that is already zero here.
      var (v, f, t) := ApplyTime(value, to & LOW_HALF, from & 0xffff_ffff_ffff_ffff, YEAR_SECONDS);
      Dispatch(v, t, f)
  }

  /** The only exception ConvertUnit can raise is a table index past the end:
      a composite code faults exactly when one of its halves does. */
  lemma {:induction false} ConvertUnitFaults(value: real, to: Code, from: Code)
    ensures ConvertUnit(value, to, from).Ok? || ConvertUnit(value, to, from) == Err(IndexOutOfBounds)
    decreases if IsComposite(to, from) then 1 else 0
  {
    if from == to {
    } else if IsComposite(to, from) {
      PlainHalves(to, from);
      ConvertUnitFaults(value, Upper(to), Upper(from));
      var first := ConvertUnit(value, Upper(to), Upper(from));
      if first.Ok? {
        ConvertUnitFaults(first.value, Lower(from), Lower(to));
      }
    } else {
      var (v, f, t) := ApplyTime(value, to & LOW_HALF, from & 0xffff_ffff_ffff_ffff, YEAR_SECONDS);
      DispatchFaults(v, t, f);
    }
  }

  // ---------------------------------------------------------------------
  // Facts the definitions rely on

  lemma TablesPositive()
    ensures AllPositive(DistanceTable) && AllPositive(AreaTable) && AllPositive(VolumeTable)
    ensures AllPositive(MassTable) && AllPositive(EnergyTable) && AllPositive(PressureTable)
    ensures AllPositive(IntensityTable) && AllPositive(ConsumptionTable)
    ensures AllPositive(TempScale) && |TempScale| == |TempOffset| == 4
  {
  }

  /** The halves of any code are plain (non-composite) codes: the recursion
      of ConvertUnit is exactly one level deep. */
  lemma PlainHalves(to: Code, from: Code)
    ensures !IsComposite(Upper(to), Upper(from))
    ensures !IsComposite(Lower(from), Lower(to))
  {
  }

  predicate IsAngleCode(c: Code) {
    c & !ANGLE_MASK == ANGLE
  }

  /** Which family of the dispatch a time-free code belongs to. */
  datatype Family = RatioFamily(d: RatioDimension) | TempFamily | PercentFamily
                  | AngleFamily | TimeFamily | NoFamily

  function FamilyOf(c: Code): Family {
    if InRange(c, DISTANCE_START, DISTANCE_END) then RatioFamily(Distance)
    else if InRange(c, TEMP_START, TEMP_END) then TempFamily
    else if InRange(c, VOLUME_START, VOLUME_END) then RatioFamily(Volume)
    else if InRange(c, AREA_START, AREA_END) then RatioFamily(Area)
    else if InRange(c, PERCENT_START, PERCENT_END) then PercentFamily
    else if InRange(c, MASS_START, MASS_END) then RatioFamily(Mass)
    else if InRange(c, ENERGY_START, ENERGY_END) then RatioFamily(Energy)
    else if InRange(c, PRESSURE_START, PRESSURE_END) then RatioFamily(Pressure)
    else if InRange(c, INTENSITY_START, INTENSITY_END) then RatioFamily(Intensity)
    else if InRange(c, FUEL_CONSUMPTION_START, FUEL_CONSUMPTION_END) then RatioFamily(FuelConsumption)
    else if IsAngleCode(c) then AngleFamily
    else if InRange(c, TIME_START, TIME_END) then TimeFamily
    else NoFamily
  }
  // ---------------------------------------------------------------------
  // Bit-level facts, one per lemma (the solver bit-blasts each separately)

  lemma SmallNoUpper(c: Code)
    requires c < TIME_START
    ensures c & HIGH_HALF == 0
  {
  }

  lemma SmallNoTime(c: Code)
    requires c < TIME_START
    ensures c & TIME_MASK == 0
  {
  }

  lemma NoUpperIsLow(c: Code)
    requires c & HIGH_HALF == 0
    ensures c & LOW_HALF == c
  {
  }

  lemma AllOnesMask(c: Code)
    ensures c & 0xffff_ffff_ffff_ffff == c
  {
  }

  lemma TimeFreeKept(c: Code)
    requires c & TIME_MASK == 0
    ensures c & !TIME_MASK == c
  {
  }

  lemma AngleNoUpper(c: Code)
    requires IsAngleCode(c)
    ensures c & HIGH_HALF == 0
  {
  }

  lemma AngleNoTime(c: Code)
    requires IsAngleCode(c)
    ensures c & TIME_MASK == 0
  {
  }

  /** An angle code is the bare base value or lies above every range. */
  lemma AnglePlacement(c: Code)
    requires IsAngleCode(c)
    ensures c == ANGLE || COMPASS <= c
  {
  }

  // ---------------------------------------------------------------------
  // The whole pipeline on plain codes

  /** Distinct plain codes without time bits reach the dimension dispatch
      unchanged. */
  lemma PlainPath(value: real, to: Code, from: Code)
    requires from != to && from & HIGH_HALF == 0 && to & HIGH_HALF == 0
    requires from & TIME_MASK == 0 && to & TIME_MASK == 0
    ensures ConvertUnit(value, to, from) == Dispatch(value, to, from)
  {
    NoUpperIsLow(to);
    AllOnesMask(from);
    TimeFreeKept(from);
    TimeFreeKept(to);
    assert !HasTimeRate(from) && !HasTimeRate(to);
    assert ApplyTime(value, to, from, YEAR_SECONDS) == (value, from, to);
  }

  /** The range ends of every table-driven dimension lie below the time field. */
  lemma RatioBelowTime(d: RatioDimension, c: Code)
    requires UnitOf(d, c)
    ensures c < TIME_START
  {
  }

  lemma TablePositive(d: RatioDimension)
    ensures AllPositive(Table(d))
  {
    TablesPositive();
  }

  lemma FactorPositive(d: RatioDimension, c: Code)
    requires Tabulated(d, c)
    ensures Factor(d, c) > 0.0
  {
    TablePositive(d);
  }

  /** The dispatch sends two codes of one ratio dimension to that dimension's
      table. */
  lemma DispatchRatio(d: RatioDimension, value: real, to: Code, from: Code)
    requires UnitOf(d, from) && UnitOf(d, to)
    ensures AllPositive(Table(d))
    ensures Dispatch(value, to, from) == Ratio(value, Table(d), Ordinal(d, from), Ordinal(d, to))
  {
    if d.Distance? || d.Area? || d.Volume? || d.Mass? {
      DispatchLengthLike(d, value, to, from);
    } else {
      DispatchOthers(d, value, to, from);
    }
  }

  lemma DispatchLengthLike(d: RatioDimension, value: real, to: Code, from: Code)
    requires UnitOf(d, from) && UnitOf(d, to)
    requires d.Distance? || d.Area? || d.Volume? || d.Mass?
    ensures AllPositive(Table(d))
    ensures Dispatch(value, to, from) == Ratio(value, Table(d), Ordinal(d, from), Ordinal(d, to))
  {
    match d
    case Distance => DispatchDistance(value, to, from);
    case Area => DispatchArea(value, to, from);
    case Volume => DispatchVolume(value, to, from);
    case Mass => DispatchMass(value, to, from);
  }

  lemma DispatchOthers(d: RatioDimension, value: real, to: Code, from: Code)
    requires UnitOf(d, from) && UnitOf(d, to)
    requires !(d.Distance? || d.Area? || d.Volume? || d.Mass?)
    ensures AllPositive(Table(d))
    ensures Dispatch(value, to, from) == Ratio(value, Table(d), Ordinal(d, from), Ordinal(d, to))
  {
    match d
    case Energy => DispatchEnergy(value, to, from);
    case Pressure => DispatchPressure(value, to, from);
    case Intensity => DispatchIntensity(value, to, from);
    case FuelConsumption => DispatchFuelConsumption(value, to, from);
  }

  lemma DispatchDistance(value: real, to: Code, from: Code)
    requires UnitOf(Distance, from) && UnitOf(Distance, to)
    ensures AllPositive(Table(Distance))
    ensures Dispatch(value, to, from) == Ratio(value, Table(Distance), Ordinal(Distance, from), Ordinal(Distance, to))
  {
    TablePositive(Distance);
  }

  lemma DispatchArea(value: real, to: Code, from: Code)
    requires UnitOf(Area, from) && UnitOf(Area, to)
    ensures AllPositive(Table(Area))
    ensures Dispatch(value, to, from) == Ratio(value, Table(Area), Ordinal(Area, from), Ordinal(Area, to))
  {
    TablePositive(Area);
  }

  lemma DispatchVolume(value: real, to: Code, from: Code)
    requires UnitOf(Volume, from) && UnitOf(Volume, to)
    ensures AllPositive(Table(Volume))
    ensures Dispatch(value, to, from) == Ratio(value, Table(Volume), Ordinal(Volume, from), Ordinal(Volume, to))
  {
    TablePositive(Volume);
  }

  lemma DispatchMass(value: real, to: Code, from: Code)
    requires UnitOf(Mass, from) && UnitOf(Mass, to)
    ensures AllPositive(Table(Mass))
    ensures Dispatch(value, to, from) == Ratio(value, Table(Mass), Ordinal(Mass, from), Ordinal(Mass, to))
  {
    TablePositive(Mass);
  }

  lemma DispatchEnergy(value: real, to: Code, from: Code)
    requires UnitOf(Energy, from) && UnitOf(Energy, to)
    ensures AllPositive(Table(Energy))
    ensures Dispatch(value, to, from) == Ratio(value, Table(Energy), Ordinal(Energy, from), Ordinal(Energy, to))
  {
    TablePositive(Energy);
  }

  lemma DispatchPressure(value: real, to: Code, from: Code)
    requires UnitOf(Pressure, from) && UnitOf(Pressure, to)
    ensures AllPositive(Table(Pressure))
    ensures Dispatch(value, to, from) == Ratio(value, Table(Pressure), Ordinal(Pressure, from), Ordinal(Pressure, to))
  {
    TablePositive(Pressure);
  }

  lemma DispatchIntensity(value: real, to: Code, from: Code)
    requires UnitOf(Intensity, from) && UnitOf(Intensity, to)
    ensures AllPositive(Table(Intensity))
    ensures Dispatch(value, to, from) == Ratio(value, Table(Intensity), Ordinal(Intensity, from), Ordinal(Intensity, to))
  {
    TablePositive(Intensity);
  }

  lemma DispatchFuelConsumption(value: real, to: Code, from: Code)
    requires UnitOf(FuelConsumption, from) && UnitOf(FuelConsumption, to)
    ensures AllPositive(Table(FuelConsumption))
    ensures Dispatch(value, to, from) == Ratio(value, Table(FuelConsumption), Ordinal(FuelConsumption, from), Ordinal(FuelConsumption, to))
  {
    TablePositive(FuelConsumption);
  }

  /** Two distinct codes of a ratio dimension are looked up in that
      dimension's table. */
  lemma RatioPath(d: RatioDimension, value: real, to: Code, from: Code)
    requires UnitOf(d, from) && UnitOf(d, to) && from != to
    ensures AllPositive(Table(d))
    ensures ConvertUnit(value, to, from) == Ratio(value, Table(d), Ordinal(d, from), Ordinal(d, to))
  {
    RatioBelowTime(d, from);
    RatioBelowTime(d, to);
    SmallNoUpper(from);
    SmallNoUpper(to);
    SmallNoTime(from);
    SmallNoTime(to);
    PlainPath(value, to, from);
    DispatchRatio(d, value, to, from);
  }

  lemma DispatchTemperature(value: real, to: Code, from: Code)
    requires InRange(from, TEMP_START, TEMP_END) && InRange(to, TEMP_START, TEMP_END)
    ensures Dispatch(value, to, from) == Temperature(value, to, from)
  {
  }

  lemma DispatchPercent(value: real, to: Code, from: Code)
    requires InRange(from, PERCENT_START, PERCENT_END) && InRange(to, PERCENT_START, PERCENT_END)
    ensures Dispatch(value, to, from) == Ok(Percent(value, to, from))
  {
  }

  lemma DispatchAngle(value: real, to: Code, from: Code)
    requires IsAngleCode(from) && IsAngleCode(to)
    ensures Dispatch(value, to, from) == Ok(Angle(value, to, from))
  {
    AnglePlacement(from);
    AnglePlacement(to);
  }

  /** Distinct temperature codes go through the Kelvin pivot. */
  lemma TemperatureConversion(value: real, to: Code, from: Code)
    requires InRange(from, TEMP_START, TEMP_END) && InRange(to, TEMP_START, TEMP_END)
    requires from != to
    ensures ConvertUnit(value, to, from) == Temperature(value, to, from)
  {
    SmallNoUpper(from);
    SmallNoUpper(to);
    SmallNoTime(from);
    SmallNoTime(to);
    PlainPath(value, to, from);
    DispatchTemperature(value, to, from);
  }

  /** Distinct percent-family codes go through the per-member rules. */
  lemma PercentConversion(value: real, to: Code, from: Code)
    requires InRange(from, PERCENT_START, PERCENT_END) && InRange(to, PERCENT_START, PERCENT_END)
    requires from != to
    ensures ConvertUnit(value, to, from) == Ok(Percent(value, to, from))
  {
    SmallNoUpper(from);
    SmallNoUpper(to);
    SmallNoTime(from);
    SmallNoTime(to);
    PlainPath(value, to, from);
    DispatchPercent(value, to, from);
  }

  /** Distinct angle codes go through the radian pivot. */
  lemma AngleConversion(value: real, to: Code, from: Code)
    requires IsAngleCode(from) && IsAngleCode(to) && from != to
    ensures ConvertUnit(value, to, from) == Ok(Angle(value, to, from))
  {
    AngleNoUpper(from);
    AngleNoUpper(to);
    AngleNoTime(from);
    AngleNoTime(to);
    PlainPath(value, to, from);
    DispatchAngle(value, to, from);
  }

  /** Codes of different families, or of none, fall through the dispatch. */
  lemma DispatchFallThrough(value: real, to: Code, from: Code)
    requires FamilyOf(from) != FamilyOf(to) || FamilyOf(from) == NoFamily
    ensures Dispatch(value, to, from) == Ok(value)
  {
    NoCommonRange(to, from);
  }

  /** Codes of different families pass none of the dispatch's range tests. */
  lemma NoCommonRange(to: Code, from: Code)
    requires FamilyOf(from) != FamilyOf(to) || FamilyOf(from) == NoFamily
    ensures !(InRange(from, DISTANCE_START, DISTANCE_END) && InRange(to, DISTANCE_START, DISTANCE_END))
    ensures !(InRange(from, TEMP_START, TEMP_END) && InRange(to, TEMP_START, TEMP_END))
    ensures !(InRange(from, VOLUME_START, VOLUME_END) && InRange(to, VOLUME_START, VOLUME_END))
    ensures !(InRange(from, AREA_START, AREA_END) && InRange(to, AREA_START, AREA_END))
    ensures !(InRange(from, PERCENT_START, PERCENT_END) && InRange(to, PERCENT_START, PERCENT_END))
    ensures !(InRange(from, MASS_START, MASS_END) && InRange(to, MASS_START, MASS_END))
    ensures !(InRange(from, ENERGY_START, ENERGY_END) && InRange(to, ENERGY_START, ENERGY_END))
    ensures !(InRange(from, PRESSURE_START, PRESSURE_END) && InRange(to, PRESSURE_START, PRESSURE_END))
    ensures !(InRange(from, INTENSITY_START, INTENSITY_END) && InRange(to, INTENSITY_START, INTENSITY_END))
    ensures !(InRange(from, FUEL_CONSUMPTION_START, FUEL_CONSUMPTION_END)
              && InRange(to, FUEL_CONSUMPTION_START, FUEL_CONSUMPTION_END))
    ensures !(IsAngleCode(from) && IsAngleCode(to))
    ensures !(InRange(from, TIME_START, TIME_END) && InRange(to, TIME_START, TIME_END))
  {
    if IsAngleCode(from) { AnglePlacement(from); }
    if IsAngleCode(to) { AnglePlacement(to); }
  }

  /** Time-free plain codes in different families, or in none, come back
      unchanged: the silent fallback. */
  lemma UnrelatedCodesPassThrough(value: real, to: Code, from: Code)
    requires !IsComposite(to, from)
    requires from & TIME_MASK == 0 && to & TIME_MASK == 0
    requires FamilyOf(from) != FamilyOf(to) || FamilyOf(from) == NoFamily
    ensures ConvertUnit(value, to, from) == Ok(value)
  {
    if from != to {
      PlainPath(value, to, from);
      DispatchFallThrough(value, to, from);
    }
  }

  // ---------------------------------------------------------------------
  // Ratio dimensions

  /** A successful lookup scales by the source's factor over the target's:
      the result times the target factor is the value times the source factor. */
  lemma RatioMeaning(value: real, t: seq<real>, i: nat, j: nat)
    requires AllPositive(t)
    ensures Ratio(value, t, i, j).Ok? ==> Ratio(value, t, i, j).value * t[j] == value * t[i]
  {
    if i < |t| && j < |t| {
      Product(value, t[i], t[j], Ratio(value, t, i, j).value);
    }
  }

  lemma Product(value: real, fi: real, fj: real, r: real)
    requires fj > 0.0 && r == value * fi / fj
    ensures r * fj == value * fi
  {
  }

  /** Looking up `i` to `j` and then `j` to `i` gives the value back. */
  lemma RatioBack(value: real, t: seq<real>, i: nat, j: nat)
    requires AllPositive(t) && i < |t| && j < |t|
    ensures Ratio(value, t, i, j).Ok?
    ensures Ratio(Ratio(value, t, i, j).value, t, j, i) == Ok(value)
  {
    var mid := Ratio(value, t, i, j).value;
    BackAndForth(value, t[i], t[j], mid, Ratio(mid, t, j, i).value);
  }

  /** Looking up `i` to `j` and then `j` to `k` is looking up `i` to `k`. */
  lemma RatioChain(value: real, t: seq<real>, i: nat, j: nat, k: nat)
    requires AllPositive(t) && i < |t| && j < |t| && k < |t|
    ensures Ratio(value, t, i, j).Ok?
    ensures Ratio(Ratio(value, t, i, j).value, t, j, k) == Ratio(value, t, i, k)
  {
    var mid := Ratio(value, t, i, j).value;
    var second := Ratio(mid, t, j, k).value;
    TwoSteps(value, t[i], t[j], t[k], mid, second);
    var direct := value * t[i] / t[k];
    assert second == direct;
    assert Ratio(value, t, i, k) == Ok(direct);
    assert Ratio(mid, t, j, k) == Ok(second);
  }

  /** The arithmetic of a round trip through two positive factors. */
  lemma BackAndForth(value: real, fa: real, fb: real, there: real, back: real)
    requires fa > 0.0 && fb > 0.0
    requires there == value * fa / fb && back == there * fb / fa
    ensures back == value
  {
    assert there * fb == value * fa;
    assert back * fa == there * fb;
    assert back * fa == value * fa;
  }

  /** The arithmetic of two chained conversions. */
  lemma TwoSteps(value: real, fa: real, fb: real, fc: real, first: real, second: real)
    requires fb > 0.0 && fc > 0.0
    requires first == value * fa / fb && second == first * fb / fc
    ensures second == value * fa / fc
  {
    assert first * fb == value * fa;
    assert second * fc == first * fb;
    DivOut(second, fc, value * fa);
  }

  lemma DivOut(r: real, c: real, p: real)
    requires c > 0.0 && r * c == p
    ensures r == p / c
  {
  }

  /** Converting between two tabulated codes of one dimension and back is
      the identity. */
  lemma RatioRoundTrip(d: RatioDimension, value: real, a: Code, b: Code)
    requires Tabulated(d, a) && Tabulated(d, b)
    ensures ConvertUnit(value, b, a).Ok?
    ensures ConvertUnit(ConvertUnit(value, b, a).value, a, b) == Ok(value)
  {
    if a != b {
      RatioRoundTripDistinct(d, value, a, b);
    } else {
      SameCode(value, a);
    }
  }

  /** Converting a unit to itself returns the value untouched. */
  lemma SameCode(value: real, c: Code)
    ensures ConvertUnit(value, c, c) == Ok(value)
  {
  }

  lemma RatioRoundTripDistinct(d: RatioDimension, value: real, a: Code, b: Code)
    requires Tabulated(d, a) && Tabulated(d, b) && a != b
    ensures ConvertUnit(value, b, a).Ok?
    ensures ConvertUnit(ConvertUnit(value, b, a).value, a, b) == Ok(value)
  {
    var t, i, j := Table(d), Ordinal(d, a), Ordinal(d, b);
    RatioPath(d, value, b, a);
    RatioBack(value, t, i, j);
    var mid := Ratio(value, t, i, j).value;
    assert ConvertUnit(value, b, a) == Ok(mid);
    RatioPath(d, mid, a, b);
  }

  /** Converting a to b and then b to c is converting a to c. */
  lemma RatioCompose(d: RatioDimension, value: real, a: Code, b: Code, c: Code)
    requires Tabulated(d, a) && Tabulated(d, b) && Tabulated(d, c)
    ensures ConvertUnit(value, b, a).Ok?
    ensures ConvertUnit(ConvertUnit(value, b, a).value, c, b) == ConvertUnit(value, c, a)
  {
    if a == c {
      RatioComposeBack(d, value, a, b, c);
    } else if a == b {
      RatioComposeFirstStay(d, value, a, b, c);
    } else if b == c {
      RatioComposeStay(d, value, a, b, c);
    } else {
      RatioComposeDistinct(d, value, a, b, c);
    }
  }

  lemma RatioComposeBack(d: RatioDimension, value: real, a: Code, b: Code, c: Code)
    requires Tabulated(d, a) && Tabulated(d, b) && Tabulated(d, c) && a == c
    ensures ConvertUnit(value, b, a).Ok?
    ensures ConvertUnit(ConvertUnit(value, b, a).value, c, b) == ConvertUnit(value, c, a)
  {
    RatioRoundTrip(d, value, a, b);
  }

  lemma RatioComposeStay(d: RatioDimension, value: real, a: Code, b: Code, c: Code)
    requires Tabulated(d, a) && Tabulated(d, b) && Tabulated(d, c) && b == c
    ensures ConvertUnit(value, b, a).Ok?
    ensures ConvertUnit(ConvertUnit(value, b, a).value, c, b) == ConvertUnit(value, c, a)
  {
    RatioRoundTrip(d, value, b, a);
    RatioRoundTrip(d, value, a, b);
  }

  lemma RatioComposeFirstStay(d: RatioDimension, value: real, a: Code, b: Code, c: Code)
    requires Tabulated(d, a) && Tabulated(d, b) && Tabulated(d, c) && a == b
    ensures ConvertUnit(value, b, a).Ok?
    ensures ConvertUnit(ConvertUnit(value, b, a).value, c, b) == ConvertUnit(value, c, a)
  {
  }

  lemma RatioComposeDistinct(d: RatioDimension, value: real, a: Code, b: Code, c: Code)
    requires Tabulated(d, a) && Tabulated(d, b) && Tabulated(d, c)
    requires a != b && b != c && a != c
    ensures ConvertUnit(value, b, a).Ok?
    ensures ConvertUnit(ConvertUnit(value, b, a).value, c, b) == ConvertUnit(value, c, a)
  {
    var t, i, j, k := Table(d), Ordinal(d, a), Ordinal(d, b), Ordinal(d, c);
    RatioPath(d, value, b, a);
    RatioChain(value, t, i, j, k);
    var mid := Ratio(value, t, i, j).value;
    assert ConvertUnit(value, b, a) == Ok(mid);
    RatioPath(d, mid, c, b);
    RatioPath(d, value, c, a);
  }

  lemma MileToKilometre()
    ensures ConvertUnit(1.0, KM, MILE) == Ok(1.609344)
  {
    RatioPath(Distance, 1.0, KM, MILE);
  }

  /** The fuel-consumption and intensity ranges own ten codes each but their
      tables hold two entries: every higher code fails. */
  lemma FuelAndIntensityPastTable(value: real, c: Code)
    requires 2 <= c < 10
    ensures ConvertUnit(value, KG_PER_M2, FUEL_CONSUMPTION_START + c) == Err(IndexOutOfBounds)
    ensures ConvertUnit(value, FUEL_CONSUMPTION_START + c, KG_PER_M2) == Err(IndexOutOfBounds)
    ensures ConvertUnit(value, KILOWATT_PER_M, INTENSITY_START + c) == Err(IndexOutOfBounds)
    ensures ConvertUnit(value, INTENSITY_START + c, KILOWATT_PER_M) == Err(IndexOutOfBounds)
  {
    RatioPath(FuelConsumption, value, KG_PER_M2, FUEL_CONSUMPTION_START + c);
    RatioPath(FuelConsumption, value, FUEL_CONSUMPTION_START + c, KG_PER_M2);
    RatioPath(Intensity, value, KILOWATT_PER_M, INTENSITY_START + c);
    RatioPath(Intensity, value, INTENSITY_START + c, KILOWATT_PER_M);
  }

  // ---------------------------------------------------------------------
  // Temperature

  lemma TemperatureExamples()
    ensures ConvertUnit(0.0, FAHRENHEIT, CELSIUS) == Ok(32.0)
    ensures ConvertUnit(100.0, KELVIN, CELSIUS) == Ok(373.15)
  {
    TemperatureConversion(0.0, FAHRENHEIT, CELSIUS);
    TemperatureConversion(100.0, KELVIN, CELSIUS);
  }

  /** Reading a temperature as Kelvin loses nothing: the scales are positive. */
  lemma KelvinInjective(u: real, v: real, c: Code)
    requires TempTabulated(c) && Kelvin(u, c) == Kelvin(v, c)
    ensures u == v
  {
    var i := (c - TEMP_START) as int;
    var s := TempScale[i];
    assert s > 0.0;
    assert Kelvin(u, c) * s == u + TempOffset[i];
    assert Kelvin(v, c) * s == v + TempOffset[i];
  }

  /** The affine pivot inverts itself for any two tabulated scales. */
  lemma TemperatureBack(value: real, a: Code, b: Code)
    requires InRange(a, KELVIN, RANKINE) && InRange(b, KELVIN, RANKINE)
    ensures Temperature(value, b, a).Ok?
    ensures Temperature(Temperature(value, b, a).value, a, b) == Ok(value)
  {
    assert TempTabulated(a) && TempTabulated(b);
    var there := Temperature(value, b, a).value;
    var back := Temperature(there, a, b).value;
    KelvinInjective(back, value, a);
  }

  /** Every pair of the four tabulated scales round-trips. */
  lemma TemperatureRoundTrip(value: real, a: Code, b: Code)
    requires InRange(a, KELVIN, RANKINE) && InRange(b, KELVIN, RANKINE)
    ensures ConvertUnit(value, b, a).Ok?
    ensures ConvertUnit(ConvertUnit(value, b, a).value, a, b) == Ok(value)
  {
    if a != b {
      TemperatureConversion(value, b, a);
      TemperatureBack(value, a, b);
      TemperatureConversion(Temperature(value, b, a).value, a, b);
    }
  }

  /** Code 0x404 is inside the temperature range but has no table entry. */
  lemma TemperatureMissingOrdinal(value: real, c: Code)
    requires InRange(c, KELVIN, RANKINE)
    ensures ConvertUnit(value, c, TEMP_END) == Err(IndexOutOfBounds)
    ensures ConvertUnit(value, TEMP_END, c) == Err(IndexOutOfBounds)
  {
    TemperatureConversion(value, c, TEMP_END);
    TemperatureConversion(value, TEMP_END, c);
  }

  // ---------------------------------------------------------------------
  // Percent family

  lemma PercentRules(value: real)
    ensures ConvertUnit(value, DECIMAL, PERCENT) == Ok(value * 0.01)
    ensures ConvertUnit(value, DECIMAL, DECIMAL_INVERT) == Ok(1.0 - value)
    ensures ConvertUnit(value, DECIMAL_INVERT, DECIMAL) == Ok(1.0 - value)
    ensures ConvertUnit(25.0, PERCENT_INVERT, PERCENT) == Ok(9975.0)
  {
    PercentConversion(value, DECIMAL, PERCENT);
    PercentConversion(value, DECIMAL, DECIMAL_INVERT);
    PercentConversion(value, DECIMAL_INVERT, DECIMAL);
    PercentConversion(25.0, PERCENT_INVERT, PERCENT);
  }

  /** PERCENT_INVERT to DECIMAL and back adds 9900: the pair does not
      round-trip. */
  lemma PercentInvertNoRoundTrip(value: real)
    ensures ConvertUnit(value, DECIMAL, PERCENT_INVERT).Ok?
    ensures ConvertUnit(ConvertUnit(value, DECIMAL, PERCENT_INVERT).value, PERCENT_INVERT, DECIMAL)
            == Ok(value + 9900.0)
  {
    PercentConversion(value, DECIMAL, PERCENT_INVERT);
    PercentConversion((100.0 - value) * 0.01, PERCENT_INVERT, DECIMAL);
  }

  /** DECIMAL, PERCENT and DECIMAL_INVERT do round-trip among themselves. */
  lemma PercentRoundTrip(value: real, a: Code, b: Code)
    requires a == DECIMAL || a == PERCENT || a == DECIMAL_INVERT
    requires b == DECIMAL || b == PERCENT || b == DECIMAL_INVERT
    ensures ConvertUnit(value, b, a).Ok?
    ensures ConvertUnit(ConvertUnit(value, b, a).value, a, b) == Ok(value)
  {
    if a != b {
      PercentConversion(value, b, a);
      PercentConversion(Percent(value, b, a), a, b);
    }
  }

  // ---------------------------------------------------------------------
  // Calendar rates

  /** Each literal chain multiplies or divides by the reference table. */
  lemma ScaleChainsMatchTable(value: real, unit: Code, year: real)
    requires year > 0.0
    ensures SecondsPer(unit, year) > 0.0
    ensures ScaleUp(value, unit, year) == value * SecondsPer(unit, year)
    ensures ScaleDown(value, unit, year) == value / SecondsPer(unit, year)
  {
  }

  /** The factor a code's time field applies on the source side: its length
      in seconds for "in", the reciprocal for "per". */
  function RateFactor(c: Code, year: real): (r: real)
    requires year > 0.0
    ensures r > 0.0
  {
    ScaleChainsMatchTable(1.0, c & TIME_UNIT_MASK, year);
    if c & TIME_MULT != 0 then SecondsPer(c & TIME_UNIT_MASK, year)
    else 1.0 / SecondsPer(c & TIME_UNIT_MASK, year)
  }

  lemma Reciprocal(v: real, s: real)
    requires s > 0.0
    ensures v / s == v * (1.0 / s)
    ensures v * s == v / (1.0 / s)
  {
  }

  /** The source side of the calendar step multiplies by the source factor. */
  lemma SourceSide(value: real, from: Code, year: real)
    requires year > 0.0
    ensures SourceScale(value, from, year) == value * RateFactor(from, year)
  {
    var u := from & TIME_UNIT_MASK;
    ScaleChainsMatchTable(value, u, year);
    var sp := SecondsPer(u, year);
    if from & TIME_MULT != 0 {
      assert RateFactor(from, year) == sp;
    } else {
      assert RateFactor(from, year) == 1.0 / sp;
      Reciprocal(value, sp);
    }
  }

  /** The target side divides by the target factor. */
  lemma TargetSide(v: real, to: Code, year: real)
    requires year > 0.0
    ensures TargetScale(v, to, year) == v / RateFactor(to, year)
  {
    var u := to & TIME_UNIT_MASK;
    ScaleChainsMatchTable(v, u, year);
    Reciprocal(v, SecondsPer(u, year));
  }

  /** The two chains of one code undo each other. */
  lemma ScalesInverse(value: real, c: Code, year: real)
    requires year > 0.0
    ensures SourceScale(TargetScale(value, c, year), c, year) == value
    ensures TargetScale(SourceScale(value, c, year), c, year) == value
  {
    ChainsInverse(value, c & TIME_UNIT_MASK, year);
  }

  lemma ChainsInverse(value: real, u: Code, year: real)
    requires year > 0.0
    ensures ScaleDown(ScaleUp(value, u, year), u, year) == value
    ensures ScaleUp(ScaleDown(value, u, year), u, year) == value
  {
    assert value * year / year == value;
    assert value / year * year == value;
  }

  /** Rescaling from a to b and back is the identity. */
  lemma CalendarRoundTrip(value: real, a: Code, b: Code, year: real)
    requires year > 0.0
    ensures CalendarRescale(CalendarRescale(value, b, a, year), a, b, year) == value
  {
    var v := SourceScale(value, a, year);
    ScalesInverse(v, b, year);
    ScalesInverse(value, a, year);
  }



  /** Sixty metres a minute is 3600 metres an hour. */
  lemma MinutesToHours()
    ensures ConvertUnit(60.0, M | HOUR, M | MINUTE) == Ok(3600.0)
  {
    assert ApplyTime(60.0, M | HOUR, M | MINUTE, YEAR_SECONDS) == (3600.0, M, M);
  }

  /** A watt-hour is 3600 joules. */
  lemma WattHourInJoules()
    ensures ConvertUnit(1.0, JOULE, WATT_HOUR) == Ok(3600.0)
  {
    assert ApplyTime(1.0, JOULE, WATT_HOUR, YEAR_SECONDS) == (3600.0, WATT, JOULE);
    DispatchEnergy(3600.0, JOULE, WATT);
  }

  /** One metre per microsecond is read as 1000 metres per second, following
      the source's microsecond constant. */
  lemma MicrosecondsAsWritten()
    ensures ConvertUnit(1.0, M | SECOND, M | MICROSECOND) == Ok(1000.0)
  {
    assert ApplyTime(1.0, M | SECOND, M | MICROSECOND, YEAR_SECONDS) == (1000.0, M, M);
  }

  // ---------------------------------------------------------------------
  // The pure-time branch

  /** Whatever two plain codes come in, ApplyTime never leaves both inside
      the time range: the pure-time branch of the dispatch is dead. */
  lemma PureTimeBranchUnreachable(value: real, to: Code, from: Code)
    ensures var (_, f, t) := ApplyTime(value, to, from, YEAR_SECONDS);
            !(InRange(f, TIME_START, TIME_END) && InRange(t, TIME_START, TIME_END))
  {
    if from != 0 && to != 0 {
      StrippedOutsideTime(from);
      StrippedOutsideTime(to);
    }
  }

  /** A code with its time bits cleared is never a time code. */
  lemma StrippedOutsideTime(c: Code)
    ensures !InRange(c & !TIME_MASK, TIME_START, TIME_END)
  {
  }

  /** Two distinct pure time codes (HOUR to MINUTE, say) come back unchanged:
      their time bits are stripped to zero before the dispatch. */
  lemma PureTimeCodesUnchanged(value: real, to: Code, from: Code)
    requires from & !TIME_MASK == 0 && to & !TIME_MASK == 0
    requires from != to
    ensures ConvertUnit(value, to, from) == Ok(value)
  {
    PureTimeBits(from);
    PureTimeBits(to);
    if from != 0 && to != 0 {
      assert ApplyTime(value, to, from, YEAR_SECONDS) == (value, 0, 0);
      DispatchFallThrough(value, 0, 0);
    } else {
      assert ApplyTime(value, to, from, YEAR_SECONDS) == (value, from, to);
      DispatchFallThrough(value, to, from);
    }
  }

  lemma PureTimeBits(c: Code)
    requires c & !TIME_MASK == 0
    ensures c & HIGH_HALF == 0 && c & LOW_HALF == c && c & 0xffff_ffff_ffff_ffff == c
    ensures !HasTimeRate(c)
  {
  }

  /** Had the pure-time branch been reachable, its year would be ten times
      the live path's. */
  /** The pure-time branch converts back: `to` then `from` returns the
      value, for any two codes. */
  lemma PureTimeRoundTrip(value: real, to: Code, from: Code)
    ensures PureTime(PureTime(value, to, from), from, to) == value
  {
    CalendarRoundTrip(value, from, to, PURE_TIME_YEAR_SECONDS);
  }

  lemma PureTimeYearIsTenfold()
    ensures PureTime(1.0, SECOND, YEAR | TIME_MULT)
            == 10.0 * CalendarRescale(1.0, SECOND, YEAR | TIME_MULT, YEAR_SECONDS)
  {
  }

  // ---------------------------------------------------------------------
  // Composite codes

  /** A composite code with `upper` over `lower`. */
  function Pack(upper: Code, lower: Code): Code
    requires upper <= LOW_HALF && lower <= LOW_HALF
  {
    (upper << 32) | lower
  }

  lemma PackHalves(upper: Code, lower: Code)
    requires upper <= LOW_HALF && lower <= LOW_HALF
    ensures Upper(Pack(upper, lower)) == upper && Lower(Pack(upper, lower)) == lower
    ensures upper != 0 <==> Pack(upper, lower) & HIGH_HALF != 0
  {
  }

  /** A composite conversion is the upper halves converted source to target,
      then the lower halves converted TARGET to SOURCE. */
  lemma CompositeSteps(value: real, to: Code, from: Code)
    requires from != to && IsComposite(to, from)
    ensures ConvertUnit(value, to, from)
            == (var v :- ConvertUnit(value, Upper(to), Upper(from)); ConvertUnit(v, Lower(from), Lower(to)))
  {
  }

  /** The bit facts a packed pair of codes presents to ConvertUnit. */
  lemma PackFacts(fromUp: Code, fromLow: Code, toUp: Code, toLow: Code)
    requires fromUp <= LOW_HALF && fromLow <= LOW_HALF && toUp <= LOW_HALF && toLow <= LOW_HALF
    requires fromUp != 0 && (fromUp != toUp || fromLow != toLow)
    ensures Pack(fromUp, fromLow) != Pack(toUp, toLow)
    ensures IsComposite(Pack(toUp, toLow), Pack(fromUp, fromLow))
    ensures Upper(Pack(toUp, toLow)) == toUp && Lower(Pack(toUp, toLow)) == toLow
    ensures Upper(Pack(fromUp, fromLow)) == fromUp && Lower(Pack(fromUp, fromLow)) == fromLow
  {
    PackHalves(toUp, toLow);
    PackHalves(fromUp, fromLow);
  }

  /** Packed codes with a nonzero upper half convert half by half. */
  lemma PackedSteps(value: real, fromUp: Code, fromLow: Code, toUp: Code, toLow: Code)
    requires fromUp <= LOW_HALF && fromLow <= LOW_HALF && toUp <= LOW_HALF && toLow <= LOW_HALF
    requires fromUp != 0 && (fromUp != toUp || fromLow != toLow)
    ensures ConvertUnit(value, Pack(toUp, toLow), Pack(fromUp, fromLow))
            == (var v :- ConvertUnit(value, toUp, fromUp); ConvertUnit(v, fromLow, toLow))
  {
    PackFacts(fromUp, fromLow, toUp, toLow);
    CompositeSteps(value, Pack(toUp, toLow), Pack(fromUp, fromLow));
  }

  /** With equal upper halves, the lower halves convert from the TARGET's
      lower half to the SOURCE's: the reverse of a direct call. */
  lemma CompositeLowerReversed(value: real, upper: Code, fromLow: Code, toLow: Code)
    requires 0 < upper <= LOW_HALF && fromLow <= LOW_HALF && toLow <= LOW_HALF
    requires fromLow != toLow
    ensures ConvertUnit(value, Pack(upper, toLow), Pack(upper, fromLow))
            == ConvertUnit(value, fromLow, toLow)
  {
    PackedSteps(value, upper, fromLow, upper, toLow);
  }

  /** A tabulated conversion, equal codes included, is the table lookup
      of the source's ordinal against the target's. */
  lemma RatioLookup(d: RatioDimension, value: real, to: Code, from: Code)
    requires Tabulated(d, from) && Tabulated(d, to)
    ensures AllPositive(Table(d))
    ensures ConvertUnit(value, to, from) == Ratio(value, Table(d), Ordinal(d, from), Ordinal(d, to))
  {
    if from != to {
      RatioPath(d, value, to, from);
    } else {
      TablePositive(d);
      SameCode(value, from);
      RatioSelf(value, Table(d), Ordinal(d, from));
    }
  }

  /** Looking an ordinal up against itself returns the value. */
  lemma RatioSelf(value: real, t: seq<real>, i: nat)
    requires AllPositive(t) && i < |t|
    ensures Ratio(value, t, i, i) == Ok(value)
  {
    RatioValue(value, t, i, i);
    SelfRatio(value, t[i]);
    assert Ratio(value, t, i, i).value == value;
  }

  lemma SelfRatio(value: real, f: real)
    requires f > 0.0
    ensures value * f / f == value
  {
  }

  /** A composite conversion between distinct codes with tabulated halves
      is the upper halves' lookup source to target followed by the lower
      halves' lookup target to source. */
  lemma CompositeLookups(du: RatioDimension, dl: RatioDimension, value: real,
                         aUp: Code, aLow: Code, bUp: Code, bLow: Code)
    requires Tabulated(du, aUp) && Tabulated(du, bUp) && Tabulated(dl, aLow) && Tabulated(dl, bLow)
    requires aUp != bUp || aLow != bLow
    ensures aUp <= LOW_HALF && aLow <= LOW_HALF && bUp <= LOW_HALF && bLow <= LOW_HALF
    ensures AllPositive(Table(du)) && AllPositive(Table(dl))
    ensures Ratio(value, Table(du), Ordinal(du, aUp), Ordinal(du, bUp)).Ok?
    ensures var v := Ratio(value, Table(du), Ordinal(du, aUp), Ordinal(du, bUp)).value;
            && Ratio(v, Table(dl), Ordinal(dl, bLow), Ordinal(dl, aLow)).Ok?
            && ConvertUnit(value, Pack(bUp, bLow), Pack(aUp, aLow)).Ok?
            && ConvertUnit(value, Pack(bUp, bLow), Pack(aUp, aLow)).value
               == Ratio(v, Table(dl), Ordinal(dl, bLow), Ordinal(dl, aLow)).value
  {
    RatioBelowTime(du, aUp);
    RatioBelowTime(du, bUp);
    RatioBelowTime(dl, aLow);
    RatioBelowTime(dl, bLow);
    RatioLookup(du, value, bUp, aUp);
    var v := Ratio(value, Table(du), Ordinal(du, aUp), Ordinal(du, bUp)).value;
    RatioLookup(dl, v, aLow, bLow);
    HalvesCompose(value, aUp, aLow, bUp, bLow, v, Ratio(v, Table(dl), Ordinal(dl, bLow), Ordinal(dl, aLow)).value);
  }

  /** Composite codes whose halves are tabulated round-trip: converting
      upper-over-lower `a` to `b` and back gives the value again, although
      each direction converts its lower halves the reversed way. */
  lemma CompositeRoundTrip(du: RatioDimension, dl: RatioDimension, value: real,
                           aUp: Code, aLow: Code, bUp: Code, bLow: Code)
    requires Tabulated(du, aUp) && Tabulated(du, bUp) && Tabulated(dl, aLow) && Tabulated(dl, bLow)
    ensures aUp <= LOW_HALF && aLow <= LOW_HALF && bUp <= LOW_HALF && bLow <= LOW_HALF
    ensures ConvertUnit(value, Pack(bUp, bLow), Pack(aUp, aLow)).Ok?
    ensures ConvertUnit(ConvertUnit(value, Pack(bUp, bLow), Pack(aUp, aLow)).value,
                        Pack(aUp, aLow), Pack(bUp, bLow)) == Ok(value)
  {
    RatioBelowTime(du, aUp);
    RatioBelowTime(du, bUp);
    RatioBelowTime(dl, aLow);
    RatioBelowTime(dl, bLow);
    if aUp == bUp && aLow == bLow {
      SameCode(value, Pack(aUp, aLow));
    } else {
      CompositeLookups(du, dl, value, aUp, aLow, bUp, bLow);
      var tu, tl := Table(du), Table(dl);
      var ia, ib, ja, jb := Ordinal(du, aUp), Ordinal(du, bUp), Ordinal(dl, aLow), Ordinal(dl, bLow);
      CrossedLookups(value, tu, ia, ib, tl, ja, jb);
      var there := Ratio(Ratio(value, tu, ia, ib).value, tl, jb, ja).value;
      CompositeLookups(du, dl, there, bUp, bLow, aUp, aLow);
    }
  }

  /** Lookups upper `ia` to `ib`, lower `jb` to `ja`, upper `ib` to `ia`
      and lower `ja` to `jb` give the value back. */
  lemma CrossedLookups(value: real, tu: seq<real>, ia: nat, ib: nat, tl: seq<real>, ja: nat, jb: nat)
    requires AllPositive(tu) && ia < |tu| && ib < |tu|
    requires AllPositive(tl) && ja < |tl| && jb < |tl|
    ensures Ratio(value, tu, ia, ib).Ok?
    ensures Ratio(Ratio(value, tu, ia, ib).value, tl, jb, ja).Ok?
    ensures var there := Ratio(Ratio(value, tu, ia, ib).value, tl, jb, ja).value;
            Ratio(there, tu, ib, ia).Ok? && Ratio(Ratio(there, tu, ib, ia).value, tl, ja, jb) == Ok(value)
  {
    var v1 := value * tu[ia] / tu[ib];
    var there := v1 * tl[jb] / tl[ja];
    var v2 := there * tu[ib] / tu[ia];
    var back := v2 * tl[ja] / tl[jb];
    RatioValue(value, tu, ia, ib);
    RatioValue(v1, tl, jb, ja);
    RatioValue(there, tu, ib, ia);
    RatioValue(v2, tl, ja, jb);
    CrossedFactors(value, tu[ia], tu[ib], tl[ja], tl[jb], v1, there, v2, back);
  }

  /** Packed codes whose halves convert to `v` and then `w` convert to `w`. */
  lemma HalvesCompose(value: real, aUp: Code, aLow: Code, bUp: Code, bLow: Code, v: real, w: real)
    requires 0 < aUp <= LOW_HALF && aLow <= LOW_HALF && bUp <= LOW_HALF && bLow <= LOW_HALF
    requires aUp != bUp || aLow != bLow
    requires ConvertUnit(value, bUp, aUp) == Ok(v) && ConvertUnit(v, aLow, bLow) == Ok(w)
    ensures ConvertUnit(value, Pack(bUp, bLow), Pack(aUp, aLow)) == Ok(w)
  {
    PackedSteps(value, aUp, aLow, bUp, bLow);
  }

  lemma RatioValue(value: real, t: seq<real>, i: nat, j: nat)
    requires AllPositive(t) && i < |t| && j < |t|
    ensures Ratio(value, t, i, j) == Ok(value * t[i] / t[j])
  {
  }

  /** The arithmetic of the composite round trip: the upper factors and the
      lower factors each cancel. */
  lemma CrossedFactors(value: real, pa: real, pb: real, qa: real, qb: real,
                       v1: real, there: real, v2: real, back: real)
    requires pa > 0.0 && pb > 0.0 && qa > 0.0 && qb > 0.0
    requires v1 == value * pa / pb && there == v1 * qb / qa
    requires v2 == there * pb / pa && back == v2 * qa / qb
    ensures back == value
  {
    assert v1 * pb == value * pa;
    assert there * qa == v1 * qb;
    assert v2 * pa == there * pb;
    assert back * qb == v2 * qa;
    assert back * qb * pa * qa == value * pa * qb * qa;
  }

  /** One kilojoule per kilogram is one joule per gram. */
  lemma CompositeExample()
    ensures ConvertUnit(1.0, Pack(JOULE, GRAM), Pack(KILOJOULE, KG)) == Ok(1.0)
  {
    PackedSteps(1.0, KILOJOULE, KG, JOULE, GRAM);
    RatioPath(Energy, 1.0, JOULE, KILOJOULE);
    RatioPath(Mass, 1000.0, KG, GRAM);
  }

  /** One metre per gram is one kilometre per kilogram: reversing the lower
      call turns the lower half into a denominator. */
  lemma CompositeDirection()
    ensures ConvertUnit(1.0, Pack(KM, KG), Pack(M, GRAM)) == Ok(1.0)
  {
    PackedSteps(1.0, M, GRAM, KM, KG);
    RatioPath(Distance, 1.0, KM, M);
    RatioPath(Mass, 0.001, GRAM, KG);
  }

  // ---------------------------------------------------------------------
  // Angles

  /** A cartesian angle of 0 (east) is compass bearing 90 in degrees, and a
      cartesian PI/2 (north) is compass bearing 0 in radians. */
  lemma AngleExamples()
    ensures ConvertUnit(0.0, ANGLE | COMPASS | DEGREE, ANGLE | CARTESIAN | DEGREE) == Ok(90.0)
    ensures ConvertUnit(PI / 2.0, ANGLE | COMPASS | RADIAN, ANGLE | CARTESIAN | RADIAN) == Ok(0.0)
  {
    AngleConversion(0.0, ANGLE | COMPASS | DEGREE, ANGLE | CARTESIAN | DEGREE);
    AngleConversion(PI / 2.0, ANGLE | COMPASS | RADIAN, ANGLE | CARTESIAN | RADIAN);
    EastIsNinety();
    CompassRadianExample();
  }

  lemma EastIsNinety()
    ensures Angle(0.0, ANGLE | COMPASS | DEGREE, ANGLE | CARTESIAN | DEGREE) == 90.0
  {
    assert DegreeToRadian(0.0) == 0.0;
    CompassRadianExample();
    var p: real := PI;
    assert (p / 2.0 * 180.0) * (1.0 / p) == 90.0 * (p * (1.0 / p));
  }

  /** A unit field that is neither DEGREE nor ARCSECOND reads as radians. */
  lemma OtherUnitBitsAreRadians(value: real)
    ensures ConvertUnit(value, ANGLE | 0x0800_0000, ANGLE | DEGREE) == Ok(DegreeToRadian(value))
  {
    AngleConversion(value, ANGLE | 0x0800_0000, ANGLE | DEGREE);
  }

  /** Between two compass codes both rotations apply, so the result is the
      source angle normalised into one turn rather than passed through. */
  lemma CompassToCompassNormalises(value: real)
    ensures ConvertUnit(value, ANGLE | COMPASS | RADIAN, ANGLE | COMPASS | DEGREE).Ok?
    ensures var r := ConvertUnit(value, ANGLE | COMPASS | RADIAN, ANGLE | COMPASS | DEGREE).value;
            0.0 <= r < PI * 2.0 && SameAngle(r, DegreeToRadian(value), PI * 2.0)
  {
    AngleConversion(value, ANGLE | COMPASS | RADIAN, ANGLE | COMPASS | DEGREE);
    CompassRoundTripRadian(DegreeToRadian(value));
  }

  /** Degrees to radians and back round-trips for cartesian codes. */
  lemma AngleUnitRoundTrip(value: real)
    ensures ConvertUnit(value, ANGLE | RADIAN, ANGLE | DEGREE).Ok?
    ensures ConvertUnit(ConvertUnit(value, ANGLE | RADIAN, ANGLE | DEGREE).value, ANGLE | DEGREE, ANGLE | RADIAN)
            == Ok(value)
  {
    AngleConversion(value, ANGLE | RADIAN, ANGLE | DEGREE);
    AngleConversion(DegreeToRadian(value), ANGLE | DEGREE, ANGLE | RADIAN);
    DegreeRadianInverse(value);
  }
}
