# A Dafny model of the hss math and text helpers

This project models the computational core of the `ca.hss` Java utility
library and proves properties of it.

- **`Convert.ConvertUnit`** is the unit-conversion engine (`convert.dfy`).
  - A unit is a packed 64-bit code (`bv64`).
  - Each dimension owns a range of ordinals (class `STORAGE`).
  - A time-rate field and angle bits sit on top of those ranges (class `STORAGE_FORMAT`).
  - A nonzero upper half makes a code composite: upper half over lower half.
  - One function dispatches through eight paths: composite split, calendar rescaling, table ratios, affine temperature, percent rules, angle rotation, the (dead) pure-time branch and the silent fallback.
  - It keeps the Java argument order `(value, to_format, from_format)`.
- **`Convert.UnitSystem`** getters pick a metric or an imperial code for a quantity (`unit_system.dfy`).
- **`General`** holds the angle helpers (`general.dfy`): normalisation, the cartesian/compass rotations and the degree/radian scalings.
- **`ValueCache`** is a fixed-size recency cache (`value_cache.dfy`), modelled as a value that each operation returns anew.
- **`LinkedList`** is a doubly-linked list with a sentinel node before the head and one after the tail (`linked_list.dfy`). The model uses an explicit heap of `ln_Succ`/`ln_Pred` maps and a ghost chain of nodes.
- **`StringExtensions.capitalizeFully`** is in `string_ext.dfy`.
- **`StringExtensions.sscanf`** is in `sscanf.dfy`: its pattern tokenizer and its field scanner.
- **`CollectionExtensions.Find`** is in `collections.dfy`.

Modelling conventions:

- Java exceptions are values of `Results.Result`. Examples: an array index past a table's end, `charAt` past a string's end, a null dereference, an unknown `sscanf` directive, a failed number parse.
- Java `double` is Dafny `real`. `Math.PI` is a positive real constant about which nothing else is assumed. Java's `%` on doubles is the truncated remainder `x - b*trunc(x/b)`.

Code and description disagree in a few places. The model follows the code:

- **Percent.** A PERCENT_INVERT target computes `(100 - d) * 100`. So 25 PERCENT becomes 9975, not 75.
- **Composite codes.** The lower halves are converted from the target's lower half to the source's. In effect the lower half acts as a denominator.
- **`from_format &= 0xffffffff`.** This ANDs with the `int` literal -1, which widens to all ones, so it changes nothing.
- **Sub-second time units.** The per-MICROSECOND factor is 1000 and the per-MILLISECOND factor is 1e6, as written.
- **Radix choice in `sscanf`.** `%hhi` never switches radix, because its test looks for `"%hi"`. `%li` is stored as `%ld`. The `0x` test can never succeed, because a run of digits holds no `x`.
- **Getter name.** The fuel-consumption getter is spelled `FuelConsumpiton` in the source; the model calls it `FuelConsumption`.

## Model

| member | source | states |
|---|---|---|
| General.AngleCalculateBase | src/main/java/ca/hss/math/General.java:56-63 | The result lies in `[0, base]`, is below `base` for non-negative input, and denotes the same angle as the input modulo `base`. |
| General.JavaRemBounds | src/main/java/ca/hss/math/General.java:60-62 | Java's truncated remainder lies in `[0, b)` for a non-negative dividend and in `(-b, 0]` for a negative one, and differs from the dividend by whole turns. |
| General.AngleCalculateBaseNegative | src/main/java/ca/hss/math/General.java:62 | A negative input gives a result in `(0, base]`. The result equals `base` exactly when the input is a whole number of turns. |
| General.AngleCalculateBaseAbove | src/main/java/ca/hss/math/General.java:57-60 | At or above `base` the result is the truncated remainder, inside `[0, base)`. |
| General.RotateTwice | src/main/java/ca/hss/math/General.java:32-46 | Reflecting by `1.25*base - x` and normalising, twice over, lands in `[0, base)` on the same angle as `x`. |
| General.CompassRoundTripDegree | src/main/java/ca/hss/math/General.java:36-42 | COMPASS_TO_CARTESIAN_DEGREE after CARTESIAN_TO_COMPASS_DEGREE yields the angle congruent to the input modulo 360, in `[0, 360)`. |
| General.CompassRoundTripRadian | src/main/java/ca/hss/math/General.java:32-46 | The radian rotations composed yield the angle congruent to the input modulo 2π, in `[0, 2π)`. |
| General.CompassDegreeExamples | src/main/java/ca/hss/math/General.java:36-38 | East (0) is bearing 90 and north (90) is bearing 0. |
| General.CompassRadianExample | src/main/java/ca/hss/math/General.java:32-34 | North (π/2) is bearing 0 and east (0) is bearing π/2. |
| General.DegreeRadianInverse | src/main/java/ca/hss/math/General.java:65-71 | DEGREE_TO_RADIAN and RADIAN_TO_DEGREE are mutual inverses, and 180 degrees is π. |
| General.NormalizeAngleDegree | src/main/java/ca/hss/math/General.java:48-50 | The result lies in `[0, 360]`, below 360 for non-negative input, and is the same angle as the input up to whole turns of 360. |
| General.NormalizeAngleRadian | src/main/java/ca/hss/math/General.java:52-54 | The result lies in `[0, 2π]`, below 2π for non-negative input, and is the same angle as the input up to whole turns of 2π. |
| General.CartesianToCompassDegree | src/main/java/ca/hss/math/General.java:36-38 | The bearing lies in `[0, 360]` and is `90 - x` up to whole turns: an angle counter-clockwise from east becomes one clockwise from north. |
| General.CartesianToCompassRadian | src/main/java/ca/hss/math/General.java:32-34 | The bearing lies in `[0, 2π]` and is `π/2 - x` up to whole turns. |
| General.CompassToCartesianDegree | src/main/java/ca/hss/math/General.java:40-42 | The inverse rotation is the same reflection: within one turn and `90 - x` up to whole turns, so it undoes the forward one. |
| General.CompassToCartesianRadian | src/main/java/ca/hss/math/General.java:44-46 | Within one turn and `π/2 - x` up to whole turns. |
| General.DegreeToRadian | src/main/java/ca/hss/math/General.java:65-67 | `x` degrees is `r` radians: `r * 180 == x * π`, half a turn being 180 degrees and π radians. |
| General.RadianToDegree | src/main/java/ca/hss/math/General.java:69-71 | `x` radians is `r` degrees: `r * π == x * 180`. |
| Convert.PlainHalves | src/main/java/ca/hss/math/Convert.java:46-50 | The halves handed to the two inner calls are never composite, so the recursion is one level deep. |
| Convert.ConvertUnit | src/main/java/ca/hss/math/Convert.java:43-44 | Equal codes return the value unchanged, whatever they are. |
| Convert.ConvertUnitFaults | src/main/java/ca/hss/math/Convert.java:42-345 | A conversion either succeeds or raises ArrayIndexOutOfBounds from a table lookup; no other exception is possible, composite codes included. |
| Convert.DispatchFaults | src/main/java/ca/hss/math/Convert.java:158-345 | The dimension dispatch fails only by a table index past the end. |
| Convert.Ratio | src/main/java/ca/hss/math/Convert.java:158-161 | The lookup succeeds exactly when both ordinals index the table, and otherwise raises ArrayIndexOutOfBounds. |
| Convert.Lookup | src/main/java/ca/hss/math/Convert.java:158-225 | A table-driven dimension converts exactly when both codes have table entries, and otherwise raises ArrayIndexOutOfBounds. |
| Convert.RatioLookup | src/main/java/ca/hss/math/Convert.java:158-225 | A conversion between two tabulated codes of one dimension, equal codes included, is the lookup of the source ordinal against the target ordinal. |
| Convert.PlainPath | src/main/java/ca/hss/math/Convert.java:42-53 | Distinct plain codes without time bits reach the dimension dispatch with value and codes unchanged. |
| Convert.DispatchRatio | src/main/java/ca/hss/math/Convert.java:158-225 | Two codes in the range of one table-driven dimension are looked up in that dimension's table, whatever the order of the tests. |
| Convert.RatioPath | src/main/java/ca/hss/math/Convert.java:42-225 | ConvertUnit on two distinct codes of one ratio dimension is `value * t[from - start] / t[to - start]`, or an index fault past the table. |
| Convert.RatioMeaning | src/main/java/ca/hss/math/Convert.java:158-225 | A successful lookup times the target's factor equals the value times the source's factor: both sides denote the same amount of the base unit. |
| Convert.RatioBack | src/main/java/ca/hss/math/Convert.java:158-225 | A lookup from ordinal `i` to `j` followed by one from `j` to `i` gives the value back. |
| Convert.RatioChain | src/main/java/ca/hss/math/Convert.java:158-225 | A lookup from `i` to `j` followed by one from `j` to `k` equals the lookup from `i` to `k`. |
| Convert.RatioRoundTrip | src/main/java/ca/hss/math/Convert.java:158-225 | For any two tabulated codes of a ratio dimension, converting a→b succeeds and converting the result b→a gives the value back. |
| Convert.RatioCompose | src/main/java/ca/hss/math/Convert.java:158-225 | For tabulated codes a, b and c of one dimension, converting a→b then b→c equals converting a→c. |
| Convert.SameCode | src/main/java/ca/hss/math/Convert.java:43-44 | Equal codes return the value untouched. |
| Convert.MileToKilometre | src/main/java/ca/hss/math/Convert.java:158-161 | One MILE is 1.609344 KM. |
| Convert.FuelAndIntensityPastTable | src/main/java/ca/hss/math/Convert.java:216-225 | Fuel-consumption and intensity codes with ordinals 2..9 are inside their ranges, but a conversion to or from them is an index fault. |
| Convert.TemperatureConversion | src/main/java/ca/hss/math/Convert.java:162-166 | Distinct temperature codes convert through Kelvin: `(v + o[i]) / s[i] * s[j] - o[j]`. |
| Convert.Temperature | src/main/java/ca/hss/math/Convert.java:162-166 | The conversion succeeds exactly when both codes have offset and scale entries, and otherwise raises ArrayIndexOutOfBounds. The result, read as Kelvin in the target scale, equals the input read as Kelvin in the source scale. |
| Convert.TemperatureExamples | src/main/java/ca/hss/math/Convert.java:162-166 | 0 °C is 32 °F, and 100 °C is 373.15 K. |
| Convert.KelvinInjective | src/main/java/ca/hss/math/Convert.java:164-165 | Reading a value of one tabulated scale as Kelvin loses nothing: two values with the same Kelvin reading are equal. |
| Convert.TemperatureBack | src/main/java/ca/hss/math/Convert.java:164-165 | The Kelvin pivot inverts itself for any two of the four tabulated scales. |
| Convert.TemperatureRoundTrip | src/main/java/ca/hss/math/Convert.java:162-166 | For every pair of KELVIN, CELSIUS, FAHRENHEIT and RANKINE, a conversion and its reverse give the value back. |
| Convert.TemperatureMissingOrdinal | src/main/java/ca/hss/math/Convert.java:162-166 | Code 0x404 lies in the temperature range but has no table entry: any conversion to or from it is an index fault. |
| Convert.PercentConversion | src/main/java/ca/hss/math/Convert.java:177-200 | Distinct percent-family codes normalise the source to a decimal and denormalise it to the target, by the per-member rules. |
| Convert.Percent | src/main/java/ca/hss/math/Convert.java:177-200 | Equal codes keep the value. Between distinct codes the fraction denoted is kept, except that a PERCENT_INVERT target lands 99 below it. |
| Convert.PercentRules | src/main/java/ca/hss/math/Convert.java:180-196 | PERCENT→DECIMAL multiplies by 0.01. DECIMAL_INVERT↔DECIMAL gives `1 - v` both ways. 25 PERCENT→PERCENT_INVERT gives 9975. |
| Convert.PercentInvertNoRoundTrip | src/main/java/ca/hss/math/Convert.java:183-194 | PERCENT_INVERT→DECIMAL and back adds 9900 to the value, so the pair does not round-trip. |
| Convert.PercentRoundTrip | src/main/java/ca/hss/math/Convert.java:177-200 | DECIMAL, PERCENT and DECIMAL_INVERT do round-trip among themselves. |
| Convert.ScaleChainsMatchTable | src/main/java/ca/hss/math/Convert.java:59-150 | Each literal `if` chain multiplies or divides by one positive length in seconds per time unit, taken from a reference table. |
| Convert.RateFactor | src/main/java/ca/hss/math/Convert.java:59-104 | A code's time field applies a positive factor: its length in seconds for "in", the reciprocal for "per". |
| Convert.SourceSide | src/main/java/ca/hss/math/Convert.java:59-104 | The source side of the calendar step multiplies by the source code's rate factor. |
| Convert.TargetSide | src/main/java/ca/hss/math/Convert.java:105-150 | The target side divides by the target code's rate factor. |
| Convert.CalendarRescale | src/main/java/ca/hss/math/Convert.java:59-150 | The calendar step multiplies by the source code's rate factor and divides by the target code's: the unit's length in seconds for "in", its reciprocal for "per". |
| Convert.ScalesInverse | src/main/java/ca/hss/math/Convert.java:59-150 | The source-side and target-side chains of one code undo each other. |
| Convert.ChainsInverse | src/main/java/ca/hss/math/Convert.java:59-104 | The multiplying and dividing chains of one time unit undo each other. |
| Convert.CalendarRoundTrip | src/main/java/ca/hss/math/Convert.java:59-150 | Rescaling a→b and then b→a gives the value back. |
| Convert.ApplyTime | src/main/java/ca/hss/math/Convert.java:55-156 | A zero code changes nothing. Otherwise both codes lose exactly their time bits. The value is kept unless a code mixes time and non-time bits and the two time fields differ. In that case the value is multiplied by the source code's rate factor and divided by the target code's, with a year of the given length (`ConvertUnit` passes `YEAR_SECONDS`). |
| Convert.Strip | src/main/java/ca/hss/math/Convert.java:154-155 | Clearing the time field leaves no time bit and keeps every other bit. |
| Convert.MinutesToHours | src/main/java/ca/hss/math/Convert.java:55-161 | 60 metres per minute is 3600 metres per hour. |
| Convert.WattHourInJoules | src/main/java/ca/hss/math/Convert.java:55-156 | One WATT_HOUR is 3600 JOULE. |
| Convert.MicrosecondsAsWritten | src/main/java/ca/hss/math/Convert.java:83-87 | One metre per MICROSECOND converts to 1000 metres per SECOND, following the source's factor. |
| Convert.PureTimeBranchUnreachable | src/main/java/ca/hss/math/Convert.java:154-155 | After the time step, the two codes are never both inside the time range, so the pure-time branch cannot run. |
| Convert.StrippedOutsideTime | src/main/java/ca/hss/math/Convert.java:154-155 | A code with its time bits cleared is never in TIME_START..TIME_END. |
| Convert.PureTimeCodesUnchanged | src/main/java/ca/hss/math/Convert.java:55-156 | Two distinct pure time codes (HOUR→MINUTE, say) return the value unchanged. |
| Convert.PureTime | src/main/java/ca/hss/math/Convert.java:250-344 | The dead pure-time branch runs the calendar chains with the ten-fold year. Codes with the same time field keep the value. |
| Convert.PureTimeRoundTrip | src/main/java/ca/hss/math/Convert.java:250-344 | The pure-time branch converts back: from one code to another and back returns the value. |
| Convert.PureTimeYearIsTenfold | src/main/java/ca/hss/math/Convert.java:250-344 | The dead branch's year constant is ten times the live path's: one year in seconds there is 315569260. |
| Convert.DispatchFallThrough | src/main/java/ca/hss/math/Convert.java:158-345 | Codes of different families, or of none, pass every range test and come back unchanged. |
| Convert.NoCommonRange | src/main/java/ca/hss/math/Convert.java:158-251 | Codes of different families satisfy none of the dispatch's twelve range tests. |
| Convert.UnrelatedCodesPassThrough | src/main/java/ca/hss/math/Convert.java:158-345 | Time-free plain codes of different families return the input value: the silent fallback. |
| Convert.PackHalves | src/main/java/ca/hss/math/Convert.java:46-48 | Packing an upper and a lower half gives a code from which both halves are read back, and the code is composite iff the upper half is nonzero. |
| Convert.CompositeSteps | src/main/java/ca/hss/math/Convert.java:46-50 | A composite conversion converts the upper halves source→target, then the lower halves target→source. |
| Convert.PackFacts | src/main/java/ca/hss/math/Convert.java:46-48 | Two packed codes with a nonzero source upper half are distinct, composite, and yield their halves. |
| Convert.PackedSteps | src/main/java/ca/hss/math/Convert.java:46-50 | Packed codes convert half by half, the lower halves in the reverse direction. |
| Convert.CompositeLowerReversed | src/main/java/ca/hss/math/Convert.java:47-48 | With equal upper halves, the result is the lower conversion from the target's lower half to the source's: the reverse of a direct call. |
| Convert.CompositeExample | src/main/java/ca/hss/math/Convert.java:46-50 | One kilojoule per kilogram is one joule per gram. |
| Convert.CompositeDirection | src/main/java/ca/hss/math/Convert.java:46-50 | One metre per gram is one kilometre per kilogram: the reversed lower call makes the lower half a denominator. |
| Convert.CompositeLookups | src/main/java/ca/hss/math/Convert.java:46-50 | Between distinct composite codes with tabulated halves, the result is the upper lookup from source to target followed by the lower lookup from target to source. |
| Convert.CompositeRoundTrip | src/main/java/ca/hss/math/Convert.java:46-50 | Composite codes with tabulated halves round-trip: converting `a` to `b` and back gives the value, although each direction converts its lower halves the reversed way. |
| Convert.CrossedLookups | src/main/java/ca/hss/math/Convert.java:46-50 | The four lookups of a composite round trip, upper halves forward and back and lower halves reversed both times, give the value back. |
| Convert.AngleConversion | src/main/java/ca/hss/math/Convert.java:226-249 | Distinct angle codes convert through radians. The compass rotation is undone on the source side and applied on the target side. |
| Convert.Angle | src/main/java/ca/hss/math/Convert.java:226-249 | Codes with the same angle field keep the value. Otherwise the result points the same way as the input up to whole turns. Between cartesian codes the angle in radians is kept exactly, and a compass target lies within one turn. |
| Convert.DirectionSteps | src/main/java/ca/hss/math/Convert.java:235-240 | The source and target rotations each keep the direction pointed to, up to whole turns. |
| Convert.AngleExamples | src/main/java/ca/hss/math/Convert.java:226-249 | CARTESIAN\|DEGREE 0 is COMPASS\|DEGREE 90, and CARTESIAN\|RADIAN π/2 is COMPASS\|RADIAN 0. |
| Convert.OtherUnitBitsAreRadians | src/main/java/ca/hss/math/Convert.java:241-246 | A target unit field that is neither DEGREE nor ARCSECOND leaves the value in radians. |
| Convert.CompassToCompassNormalises | src/main/java/ca/hss/math/Convert.java:235-240 | Between two compass codes both rotations apply, so the result is the source angle normalised into `[0, 2π)` rather than passed through. |
| Convert.AngleUnitRoundTrip | src/main/java/ca/hss/math/Convert.java:229-245 | Degrees to radians and back gives the value back for cartesian codes. |
| UnitSystem.SystemChoice | src/main/java/ca/hss/math/Convert.java:348-416 | Every getter returns the imperial code only for 2 and the metric code for any other int. The two codes differ for every quantity. |
| UnitSystem.SmallDistancesShareImperialUnit | src/main/java/ca/hss/math/Convert.java:388-398 | DistanceSmall and DistanceSmall2 agree in imperial units (INCH) and differ in metric units. |
| UnitSystem.SpeedFactor | src/main/java/ca/hss/math/Convert.java:358-362 | Both speed codes share the HOUR field, so imperial→metric is only the distance ratio: ×1.609344. |
| UnitSystem.SpreadRateFactor | src/main/java/ca/hss/math/Convert.java:376-380 | Chains per hour to metres per minute is `value / 60 * 20.1168`. |
| UnitSystem.SystemRoundTrip | src/main/java/ca/hss/math/Convert.java:348-416 | For every quantity, converting a metric value to the imperial unit and back gives it again. |
| UnitSystem.SpeedRoundTrip | src/main/java/ca/hss/math/Convert.java:358-362 | Metric speed to imperial and back is the identity. |
| UnitSystem.SpreadRateRoundTrip | src/main/java/ca/hss/math/Convert.java:376-380 | Metric spread rate to imperial and back is the identity, through both the distance ratio and the calendar factor. |
| UnitSystem.Temperature | src/main/java/ca/hss/math/Convert.java:352-356 | For any system value the code is a unit of the quantity: a temperature code with an offset and a scale entry. |
| UnitSystem.Speed | src/main/java/ca/hss/math/Convert.java:358-362 | For any system value the code is a unit of the quantity: a distance code over a time field: it carries a time rate, and without the time bits it is a tabulated distance. |
| UnitSystem.FuelConsumption | src/main/java/ca/hss/math/Convert.java:364-368 | For any system value the code is a unit of the quantity: a fuel-consumption code with a table entry. |
| UnitSystem.Intensity | src/main/java/ca/hss/math/Convert.java:370-374 | For any system value the code is a unit of the quantity: an intensity code with a table entry. |
| UnitSystem.SpreadRate | src/main/java/ca/hss/math/Convert.java:376-380 | For any system value the code is a unit of the quantity: a distance code over a time field, like Speed. |
| UnitSystem.Area | src/main/java/ca/hss/math/Convert.java:382-386 | For any system value the code is a unit of the quantity: an area code with a table entry. |
| UnitSystem.DistanceSmall | src/main/java/ca/hss/math/Convert.java:388-392 | For any system value the code is a unit of the quantity: a tabulated distance code. |
| UnitSystem.DistanceSmall2 | src/main/java/ca/hss/math/Convert.java:394-398 | For any system value the code is a unit of the quantity: a tabulated distance code. |
| UnitSystem.DistanceMedium | src/main/java/ca/hss/math/Convert.java:400-404 | For any system value the code is a unit of the quantity: a tabulated distance code. |
| UnitSystem.DistanceMedium2 | src/main/java/ca/hss/math/Convert.java:406-410 | For any system value the code is a unit of the quantity: a tabulated distance code. |
| UnitSystem.DistanceLarge | src/main/java/ca/hss/math/Convert.java:412-416 | For any system value the code is a unit of the quantity: a tabulated distance code. |
| ValueCache.New | src/main/java/ca/hss/math/ValueCache.java:33-38 | A negative size fails with NegativeArraySize. Otherwise there are `numEntries` slots, all empty, and the counter is zero. |
| ValueCache.Clear | src/main/java/ca/hss/math/ValueCache.java:40-43 | Every slot is marked empty, and keys, values and the counter are kept. |
| ValueCache.Put | src/main/java/ca/hss/math/ValueCache.java:45-71 | With no slots nothing changes. Otherwise the counter advances and exactly one slot is rewritten: restamped if it already holds the key, else overwritten with the key, the value and the new stamp. Every other slot is unchanged. |
| ValueCache.Get | src/main/java/ca/hss/math/ValueCache.java:74-92 | Keys and values are kept. An absent key is a miss that changes nothing. A hit returns the value of a slot holding the key, with only that slot restamped. |
| ValueCache.Stop | src/main/java/ca/hss/math/ValueCache.java:55-57 | The scans stop at the first slot that is empty or holds the key: every slot before it is in use with another key. |
| ValueCache.Oldest | src/main/java/ca/hss/math/ValueCache.java:54-59 | The slot `put` evicts has the smallest stamp, and every slot before it has a larger one. |
| ValueCache.PutScan | src/main/java/ca/hss/math/ValueCache.java:54-66 | The loop of `put` stops where `Stop` says, and a scan that runs to the end has found `Oldest`. |
| ValueCache.StopFinds | src/main/java/ca/hss/math/ValueCache.java:55-63 | Under the prefix-occupancy invariant, a key is present iff the scan stops on a slot holding it. |
| ValueCache.NewInv | src/main/java/ca/hss/math/ValueCache.java:33-38 | A new cache of non-negative size satisfies the invariant: used slots form a prefix, stamps are at most the counter, no key is held twice. |
| ValueCache.ClearForgets | src/main/java/ca/hss/math/ValueCache.java:40-43 | After `clear` the invariant holds, no key is present, and `get` returns null. |
| ValueCache.ZeroCapacity | src/main/java/ca/hss/math/ValueCache.java:46-47 | With no slots, `put` changes nothing, not even the counter, and `get` returns null. |
| ValueCache.GetFinds | src/main/java/ca/hss/math/ValueCache.java:74-92 | `get` hits exactly the present keys and returns the stored value. A hit advances the counter and restamps the slot; a miss changes nothing; the invariant is kept. |
| ValueCache.PutPresentRefreshes | src/main/java/ca/hss/math/ValueCache.java:60-63 | Re-putting a present key only gives its slot the new stamp. The stored value is not replaced and every other slot is unchanged. |
| ValueCache.PutAbsentPlaces | src/main/java/ca/hss/math/ValueCache.java:54-70 | An absent key goes into the first empty slot, or, when the cache is full, over the first slot with the smallest stamp. Every other slot is unchanged. |
| ValueCache.PutInv | src/main/java/ca/hss/math/ValueCache.java:45-71 | `put` keeps the invariant. |
| ValueCache.PutThenGet | src/main/java/ca/hss/math/ValueCache.java:45-92 | After putting an absent key, `get` returns the new value; a key that was present keeps returning its old value. |
| ValueCache.EvictionForgetsOldest | src/main/java/ca/hss/math/ValueCache.java:65-70 | A put that evicts drops the key of the slot it overwrites. |
| LinkedList.EmptyIsValid | src/ca/hss/math/LinkedList.java:66-82 | A new list holds the empty chain, `isEmpty` is true and `size` is 0. |
| LinkedList.IsEmpty | src/ca/hss/math/LinkedList.java:80-91 | `isEmpty` holds iff `size` is 0. |
| LinkedList.GetFirst | src/ca/hss/math/LinkedList.java:112-120 | A list with a head returns it and is unchanged. Without one, the list stays empty and a node `newObject` has just made is returned, two serials being used. |
| LinkedList.GetLast | src/ca/hss/math/LinkedList.java:127-135 | The mirror image of `getFirst` at the tail. |
| LinkedList.AddAfter | src/ca/hss/math/LinkedList.java:258-280 | The only fault is a null dereference. An empty list becomes the one item. Otherwise it succeeds exactly when `after` is non-null with a successor; the item then sits between `after` and that successor, linked both ways, and the count grows by one. |
| LinkedList.AddFirst | src/ca/hss/math/LinkedList.java:143-148 | An empty list becomes the one item. Otherwise a success links the item after the front sentinel and adds one to the count. |
| LinkedList.AddLast | src/ca/hss/math/LinkedList.java:157-170 | An empty list becomes the one item. Otherwise a success links the item after the old tail, pointing back at it, and adds one to the count. |
| LinkedList.Get | src/ca/hss/math/LinkedList.java:202-227 | An empty list, or an index at or past the end, gives null, and index 0 the head. On a non-empty list a negative index is a NullPointerException. No other fault occurs. |
| LinkedList.Walk | src/ca/hss/math/LinkedList.java:209-225 | Only a null dereference can fail a walk, and a walk that has steps left from null always does. |
| LinkedList.AddAt | src/ca/hss/math/LinkedList.java:238-247 | On an empty list any index makes the item the one element. A success on a non-empty list adds one to the count. The only fault is a null dereference. |
| LinkedList.SizeCounts | src/ca/hss/math/LinkedList.java:80-91 | `size` is the number of elements, and `isEmpty` holds iff there are none. |
| LinkedList.GetEndsPresent | src/ca/hss/math/LinkedList.java:112-135 | On a non-empty list `getFirst`/`getLast` return the first/last element and change nothing. |
| LinkedList.GetEndsEmpty | src/ca/hss/math/LinkedList.java:112-135 | On an empty list `getFirst`/`getLast` return a new detached node and the list stays empty, against their doc comments. |
| LinkedList.SplicedChain | src/ca/hss/math/LinkedList.java:269-277 | Links rewired around `x` after chain node `k` make a heap that holds the chain with `x` inserted there. |
| LinkedList.AddAfterSplices | src/ca/hss/math/LinkedList.java:258-280 | `addAfter` on a chain node succeeds and inserts the item right after it, both link directions and head/tail maintained. |
| LinkedList.AddAfterStarts | src/ca/hss/math/LinkedList.java:259-266 | Adding to an empty list builds two new sentinels around the only element. |
| LinkedList.InsertElements | src/ca/hss/math/LinkedList.java:258-280 | Inserting at element position `p` places the node at `p`, earlier elements before it and later ones after it. |
| LinkedList.AddFirstPrepends | src/ca/hss/math/LinkedList.java:143-148 | `addFirst` makes the node the head, keeps the earlier order behind it and increments the count. |
| LinkedList.AddLastAppends | src/ca/hss/math/LinkedList.java:157-170 | `add`/`addLast` makes the node the tail, keeps the earlier order before it and increments the count. |
| LinkedList.WalkForward | src/ca/hss/math/LinkedList.java:209-214 | Following `ln_Succ` `steps` times from chain node `i` reaches chain node `i + steps`. |
| LinkedList.WalkBackward | src/ca/hss/math/LinkedList.java:219-225 | Following `ln_Pred` `steps` times from chain node `i` reaches chain node `i - steps`. |
| LinkedList.GetIndexes | src/ca/hss/math/LinkedList.java:202-227 | `get(index)` returns the element at `index`, and null on an empty list or at or past the end. |
| LinkedList.AddAtPlaces | src/ca/hss/math/LinkedList.java:238-247 | `add(index, item)` puts the item at `index`, or at the end when `index` is at or past it. |
| LinkedList.AddAtInside | src/ca/hss/math/LinkedList.java:243-246 | Inside the list, `add(index, item)` is `addAfter` on the predecessor of the element at `index`. |
| LinkedList.DropElements | src/ca/hss/math/LinkedList.java:288-354 | Unlinking the node at chain position `k` removes exactly element `k - 1` and keeps the others in order. |
| LinkedList.RemoveSingle | src/ca/hss/math/LinkedList.java:291-296 | On a one-element list, `removeFirst` and `removeLast` return that element and leave the list empty. |
| LinkedList.UnlinkedChain | src/ca/hss/math/LinkedList.java:298-299 | Links rewired so that node `k - 1` skips to node `k + 1` make a heap that holds the chain without node `k`. |
| LinkedList.RemoveFirst | src/ca/hss/math/LinkedList.java:288-303 | The corrected `removeFirst`, with the front sentinel relinked: the count is zero for an empty list and one less otherwise. On two or more elements it returns the head, makes its successor the head, and the sentinel's `ln_Succ` names the new head. |
| LinkedList.RemoveFirstAsWritten | src/ca/hss/math/LinkedList.java:288-303 | As written: the count is zero for an empty list and one less otherwise, the head is returned and its successor becomes the head, and no `ln_Succ` link changes at all. |
| LinkedList.RemoveLast | src/ca/hss/math/LinkedList.java:311-326 | The count is zero for an empty list and one less otherwise. On two or more elements it returns the tail, makes its predecessor the tail, and links that predecessor to the back sentinel. |
| LinkedList.RemoveAsWritten | src/ca/hss/math/LinkedList.java:335-354 | `remove` as written, head through the as-written `removeFirst`: a success leaves the count zero for an empty list and one less otherwise. |
| LinkedList.Remove | src/ca/hss/math/LinkedList.java:335-354 | The corrected `remove`, head through the corrected `removeFirst`: the same count, and an element away from both ends has its neighbours linked to each other. |
| LinkedList.Clear | src/ca/hss/math/LinkedList.java:390-395 | The only fault is a null dereference, and a success leaves the count at zero. |
| LinkedList.RemoveFirstUnlinks | src/ca/hss/math/LinkedList.java:288-303 | The corrected `removeFirst` on two or more elements returns the head and leaves the rest, in order, as a valid list. |
| LinkedList.RemoveLastUnlinks | src/ca/hss/math/LinkedList.java:311-326 | `removeLast` on two or more elements returns the tail and leaves the rest, in order, as a valid list. |
| LinkedList.RemoveMiddleUnlinks | src/ca/hss/math/LinkedList.java:348-353 | An element with non-sentinel neighbours is unlinked in place. |
| LinkedList.RemoveUnlinks | src/ca/hss/math/LinkedList.java:335-354 | The corrected `remove` of any element unlinks it, keeps the others in order and decrements the count. |
| LinkedList.RemoveSmall | src/ca/hss/math/LinkedList.java:336-343 | `remove` on an empty list does nothing. On a one-element list it empties the list whatever node it is given. |
| LinkedList.RemoveFromEmpty | src/ca/hss/math/LinkedList.java:289-290 | `removeFirst` and `removeLast` return null on an empty list and change nothing. |
| LinkedList.ClearEmpties | src/ca/hss/math/LinkedList.java:390-395 | The corrected `clear` leaves an empty list, from any valid list. |
| LinkedList.ClearAsWritten | src/ca/hss/math/LinkedList.java:390-395 | The source's `clear`, looping on the as-written `removeFirst`. It faults only by a null dereference, a success leaves the count at zero, and no `ln_Succ` link changes. |
| LinkedList.ClearAsWrittenChain | src/ca/hss/math/LinkedList.java:390-395 | The source's `clear` empties any list whose elements are chained by `ln_Succ` from the head, which each as-written `removeFirst` preserves. |
| LinkedList.ClearAsWrittenEmpties | src/ca/hss/math/LinkedList.java:387-395 | The source's `clear` leaves an empty list, as its documentation promises, from any valid list. It ends with the same count, head and tail as the corrected `clear`. |
| LinkedList.RemoveFirstAsWrittenLeavesStaleLink | src/ca/hss/math/LinkedList.java:297-302 | As written, `removeFirst` leaves the front sentinel's `ln_Succ` on the removed node, so the heap no longer holds the shortened chain. |
| LinkedList.RemoveAsWrittenHeadStale | src/ca/hss/math/LinkedList.java:344-345 | `remove` as written, given the head of a list of two or more, goes through the as-written `removeFirst`: the front sentinel still points at the removed node and the heap no longer holds the shortened chain. |
| LinkedList.RemoveAsWrittenUnlinks | src/ca/hss/math/LinkedList.java:346-353 | Away from the head, `remove` as written equals the corrected one: it unlinks the element and leaves a valid list. |
| LinkedList.TwoElementsChain | src/ca/hss/math/LinkedList.java:258-280 | Two `addLast` calls on a new list build the chain of sentinel, A, B, sentinel. |
| LinkedList.RemovedHeadComesBack | src/ca/hss/math/LinkedList.java:297-302 | From [A, B], `removeFirst` as written then `addFirst(C)` gives a list whose `get(1)` is the removed A. |
| LinkedList.RemovedHeadStaysGone | src/ca/hss/math/LinkedList.java:288-303 | The same steps with the corrected `removeFirst` give B at index 1. |
| StringExtensions.LowerAll | src/main/java/ca/hss/text/StringExtensions.java:40 | `toLowerCase` keeps the length and lower-cases every character. |
| StringExtensions.Pieces | src/main/java/ca/hss/text/StringExtensions.java:40 | Cutting at every space gives at least one piece, and no piece holds a space. |
| StringExtensions.DropTrailingEmpty | src/main/java/ca/hss/text/StringExtensions.java:40 | `split` drops exactly the trailing empty pieces: the result is a prefix, ends non-empty, and only empty pieces were cut. |
| StringExtensions.Split | src/main/java/ca/hss/text/StringExtensions.java:40 | No piece holds a space, and a string without spaces is one piece. A split at spaces ends with a non-empty piece, or has none. Joining the pieces with single spaces gives the input back, short only of trailing spaces. |
| StringExtensions.DropJoin | src/main/java/ca/hss/text/StringExtensions.java:40 | Dropping the trailing empty pieces removes only trailing spaces from their join. |
| StringExtensions.Trim | src/main/java/ca/hss/text/StringExtensions.java:49 | The result neither starts nor ends blank, and it sits in the input with only blanks before and after it. |
| StringExtensions.TrimStart | src/main/java/ca/hss/text/StringExtensions.java:49 | `trim` drops a leading run of blanks, and only blanks, up to the first non-blank. |
| StringExtensions.TrimEnd | src/main/java/ca/hss/text/StringExtensions.java:49 | `trim` drops a trailing run of blanks, and only blanks. |
| StringExtensions.CapitalizeFully | src/main/java/ca/hss/text/StringExtensions.java:39-50 | The call fails, with StringIndexOutOfBounds from `charAt(0)`, exactly when the split of the lower-cased input holds an empty word. |
| StringExtensions.JoinPieces | src/main/java/ca/hss/text/StringExtensions.java:40 | Joining the space-separated pieces with single spaces gives the string back. |
| StringExtensions.PiecesJoin | src/main/java/ca/hss/text/StringExtensions.java:40 | Cutting the join of space-free words at every space gives the words back. |
| StringExtensions.LowerJoin | src/main/java/ca/hss/text/StringExtensions.java:40 | Lower-casing a joined text is joining the lower-cased words. |
| StringExtensions.EmitAllJoin | src/main/java/ca/hss/text/StringExtensions.java:43-47 | The loop's output is the join of the capitalized words plus one trailing space. |
| StringExtensions.CapitalizesWords | src/main/java/ca/hss/text/StringExtensions.java:39-50 | For words without blanks joined by single spaces, the result lower-cases each word, upper-cases its first letter and joins with single spaces. |
| StringExtensions.TrimJoin | src/main/java/ca/hss/text/StringExtensions.java:46-49 | `trim` removes just the final appended space from text that neither starts nor ends blank. |
| StringExtensions.SplitClean | src/main/java/ca/hss/text/StringExtensions.java:40 | `split(" ")` of the join of clean words gives the words back. |
| StringExtensions.JoinNotBlankEnds | src/main/java/ca/hss/text/StringExtensions.java:49 | The join of blank-free words neither starts nor ends with a blank. |
| StringExtensions.CapitalizedIdempotent | src/main/java/ca/hss/text/StringExtensions.java:44-45 | Capitalizing an already capitalized word changes nothing. |
| StringExtensions.CapitalizeFullyEmpty | src/main/java/ca/hss/text/StringExtensions.java:40-44 | The empty input fails, because its only word is empty. |
| StringExtensions.CapitalizeFullyDoubleSpace | src/main/java/ca/hss/text/StringExtensions.java:40-44 | A doubled space leaves an empty word between the spaces, which fails. |
| StringExtensions.CapitalizeFullyLeadingSpace | src/main/java/ca/hss/text/StringExtensions.java:40-44 | A leading space leaves an empty first word, which fails: the input is not trimmed before the split. |
| StringExtensions.CapitalizeFullyTrailingSpace | src/main/java/ca/hss/text/StringExtensions.java:40 | A trailing space is dropped by `split` and does not change the result. |
| StringExtensions.SplitTrailingSpace | src/main/java/ca/hss/text/StringExtensions.java:40 | The join of clean words followed by one space splits into the words. |
| StringExtensions.CapitalizeFullyLoneSpace | src/main/java/ca/hss/text/StringExtensions.java:40-49 | A lone space splits into no words and gives the empty string. |
| Scanf.ReadDirective | src/main/java/ca/hss/text/StringExtensions.java:83-163 | A directive spans 2 to `|p|` characters and never yields literal text. An unknown letter after `%` is IllegalArgument. Any other failure is `charAt` past the end, and a lone `%` always fails so. |
| Scanf.Tokenize | src/main/java/ca/hss/text/StringExtensions.java:78-169 | A successful tokenization yields literal elements that are non-empty and free of `%`. |
| Scanf.TokenizeText | src/main/java/ca/hss/text/StringExtensions.java:165-166 | Text without `%` is collected into the pending literal. |
| Scanf.ReadRendered | src/main/java/ca/hss/text/StringExtensions.java:88-161 | Each directive written in its canonical spelling reads back as itself, over its full width. |
| Scanf.TokenizeRender | src/main/java/ca/hss/text/StringExtensions.java:78-169 | Tokenizing a canonically rendered element list gives the list back: the tokenizer inverts rendering. |
| Scanf.TokenizeAtDirective | src/main/java/ca/hss/text/StringExtensions.java:83-88 | At a `%`, the pending literal is flushed, then the directive's element is added, then tokenizing continues after the directive. |
| Scanf.TokenizePlain | src/main/java/ca/hss/text/StringExtensions.java:165-169 | A pattern without `%` is one literal element, or none when empty. |
| Scanf.DirectiveExamples | src/main/java/ca/hss/text/StringExtensions.java:109-163 | `%li` reads as `%ld`. `%lx` and `%hhx` add nothing. `%q` is IllegalArgument. `%` and `%h` at the end read past it. |
| Scanf.AssignedAtMostConversions | src/main/java/ca/hss/text/StringExtensions.java:170-171 | The conversions that assign a variable are no more than the counted conversions. |
| Scanf.DigitEnd | src/main/java/ca/hss/text/StringExtensions.java:180-186 | The integer loop ends at the end of the maximal digit run. |
| Scanf.WordEnd | src/main/java/ca/hss/text/StringExtensions.java:331-337 | The `%s` loop ends at the end of the maximal non-whitespace run. |
| Scanf.RealEnd | src/main/java/ca/hss/text/StringExtensions.java:269-280 | The decimal loop ends at the end of the maximal run of digits holding at most one splitter, stopping before a second splitter. |
| Scanf.RealEndUnique | src/main/java/ca/hss/text/StringExtensions.java:269-280 | That characterisation of the decimal run's end has exactly one solution. |
| Scanf.Element | src/main/java/ca/hss/text/StringExtensions.java:174-342 | One element either fails (`charAt` past the input, or a number parse) or moves the index on. A run advances within the input. Only assigning conversions produce a field, always of their own kind. |
| Scanf.MismatchWhen | src/main/java/ca/hss/text/StringExtensions.java:177-179 | An assigning conversion returns -1 exactly when the character under the index cannot start its field. |
| Scanf.SkipsWithoutReading | src/main/java/ca/hss/text/StringExtensions.java:340-342 | Literal text, `%%` and `%o` advance the index by their pattern length without comparing characters. |
| Scanf.IntegerField | src/main/java/ca/hss/text/StringExtensions.java:175-262 | An integer conversion reads the maximal digit run and parses it in its radix. A value past the variable's type is NumberFormat. |
| Scanf.WordField | src/main/java/ca/hss/text/StringExtensions.java:326-339 | `%s` assigns the maximal non-whitespace run. |
| Scanf.RealField | src/main/java/ca/hss/text/StringExtensions.java:263-325 | A decimal conversion reads the maximal run with at most one splitter. The parse rejects a comma and a run without digits. |
| Scanf.RadixOfDigits | src/main/java/ca/hss/text/StringExtensions.java:187-193 | The radix is 8 exactly for `%i`/`%hi` on a run with a leading zero, and otherwise 10. 16 never occurs. |
| Scanf.Radix | src/main/java/ca/hss/text/StringExtensions.java:187-193 | The radix is 8, 10 or 16, and anything but 10 only for `%i` and `%hi`. |
| Scanf.ParseInt | src/main/java/ca/hss/text/StringExtensions.java:175-262 | The parse succeeds exactly when every digit is below the radix and the value fits the variable; the result then lies in `[0, max]`, and a failure is NumberFormat. |
| Scanf.Max | src/main/java/ca/hss/text/StringExtensions.java:175-262 | The limit is the two's-complement maximum of the variable's type: doubled after adding one, it is the number of values of an `int`, `long`, `short` or `byte`. |
| Scanf.ValueLeadingZero | src/main/java/ca/hss/text/StringExtensions.java:191-194 | A leading zero does not change a digit string's value, so the `0` that selects octal is read as part of the number. |
| Scanf.OctalExample | src/main/java/ca/hss/text/StringExtensions.java:175-196 | `%i` reads "010" as 8. |
| Scanf.ByteOctalExample | src/main/java/ca/hss/text/StringExtensions.java:241-262 | `%hhi` reads "010" as 10. |
| Scanf.OctalRejectsEight | src/main/java/ca/hss/text/StringExtensions.java:188-194 | An octal run holding an 8 is a NumberFormat fault. |
| Scanf.ByteHolds127 | src/main/java/ca/hss/text/StringExtensions.java:241-262 | `%hhd` holds 127 ... |
| Scanf.ByteRejects128 | src/main/java/ca/hss/text/StringExtensions.java:241-262 | ... and rejects 128 with NumberFormat. |
| Scanf.DecimalStopsAtSecondPoint | src/main/java/ca/hss/text/StringExtensions.java:263-283 | `%f` on "1.5.2" reads "1.5" and stops at the second point. |
| Scanf.DecimalRejectsComma | src/main/java/ca/hss/text/StringExtensions.java:284-304 | `%lf` on "1,5" is a NumberFormat fault. |
| Scanf.DecimalNeedsDigit | src/main/java/ca/hss/text/StringExtensions.java:305-325 | `%Lf` on a run without digits is a NumberFormat fault. |
| Scanf.ScanFrom | src/main/java/ca/hss/text/StringExtensions.java:172-346 | The corrected loop returns -1 or the number of fields assigned. A scan that stops early has used up the input. |
| Scanf.ScanAsWritten | src/main/java/ca/hss/text/StringExtensions.java:172-346 | The loop as written returns -1 or the number of fields assigned. A scan that stops with elements left has only reached the last character of the input (index `length() - 1`, the break at lines 343-344), not necessarily used it up. So a final one-character field can be skipped. |
| Scanf.ScanFromFields | src/main/java/ca/hss/text/StringExtensions.java:174-346 | The fields assigned follow the pattern's assigning conversions, in order: a prefix of them. |
| Scanf.ScanAsWrittenFields | src/main/java/ca/hss/text/StringExtensions.java:174-346 | The same holds for the loop as written. |
| Scanf.Sscanf | src/main/java/ca/hss/text/StringExtensions.java:77-347 | The corrected function, its loop stopping only once the input is used up: the result is -1 or the count of fields assigned, and never more fields than variables. |
| Scanf.SscanfAsWritten | src/main/java/ca/hss/text/StringExtensions.java:77-347 | The same bounds for the function as written. |
| Scanf.TooFewVariables | src/main/java/ca/hss/text/StringExtensions.java:170-171 | More conversions than variables return -1 before any input is read, assigning nothing. |
| Scanf.PercentIsNoConversion | src/main/java/ca/hss/text/StringExtensions.java:160-161 | `%%` is not counted as a conversion, and `%o` is. |
| Scanf.TwoIntegers | src/main/java/ca/hss/text/StringExtensions.java:78-169 | The pattern `%d %d` is a conversion, a one-space literal and a conversion. |
| Scanf.LastFieldDroppedAsWritten | src/main/java/ca/hss/text/StringExtensions.java:340-346 | As written, "1 2" against "%d %d" returns 1: the loop breaks at the last character before the second conversion. |
| Scanf.LastFieldReadCorrected | src/main/java/ca/hss/text/StringExtensions.java:174-346 | With the loop stopping only when the input is used up, the same call returns 2 with fields 1 and 2. |
| Scanf.EmptyInput | src/main/java/ca/hss/text/StringExtensions.java:177 | An empty input makes the first conversion read past its end. |
| CollectionExtensions.FirstMatch | src/ca/hss/general/CollectionExtensions.java:37-43 | The index returned holds an accepted element and none before it is accepted. None is returned exactly when no element is accepted. |
| CollectionExtensions.Find | src/ca/hss/general/CollectionExtensions.java:37-43 | The loop returns null iff no element is accepted, and otherwise the accepted element at the first accepted index. |
| CollectionExtensions.FirstMatchAt | src/ca/hss/general/CollectionExtensions.java:38-40 | An accepted element with no accepted one before it is the element found. |
| CollectionExtensions.FirstMatchConcat | src/ca/hss/general/CollectionExtensions.java:38-42 | Searching `a + b` finds `a`'s match if it has one, else `b`'s shifted past `a`, else nothing. |

## Left out

- **Floating point.** Java `double` arithmetic is modelled over the reals, so every equality above holds over reals and says nothing about IEEE-754 rounding.
- **π.** `Math.PI` is an abstract positive constant. Facts that need its value, such as `HALF_PI` agreeing with it, are not stated.
- **Other `STORAGE_FORMAT` codes.** Only the `STORAGE_FORMAT` codes that the getters and lemmas name are declared. The rest are ordinals inside the modelled ranges.
- **Coordinate range.** The unused `COORDINATE_START`/`END` range and its codes do not reach `ConvertUnit`'s dispatch.
- **`UnitSystem` constants.** `METRIC` and `IMPERIAL` are plain `int` constants. The getters are pure and take any `int`.
- **`HALF_PI` and `TWO_PI`.** These constants of `General` are not used by the modelled helpers.
- ValueCache.Put: requires the call counter to be below `Long.MAX_VALUE`, so the `m_call` overflow branch (clear and restart) is not modelled. Reaching it takes 2^63 operations.
- ValueCache.Get: the same bound on the call counter, for the same reason.
- **ValueCache key comparison.** Keys are compared with Dafny equality in place of `equals`. A null key (`equals` on a null `m_key`) is not modelled.
- **ValueCache_MT.** It adds only synchronisation, and concurrency is outside the model.
- **LinkedList extras.** Not modelled:
  - iterators and `modCount`, which are fail-fast bug-detection aids;
  - `indexOf`, which dereferences `head` on an empty list;
  - `replace`, whose null-neighbour branches assume a layout the sentinel list never has;
  - the constructor's `IllegalArgumentException` for a null class.
- **`newObject`.** It uses reflection; it is modelled as handing out a fresh node.
- **LinkedList counter width.** The element count is an unbounded integer.
- **LinkedList index walks.** On a non-empty list, `get` with a negative index takes the forward branch (lines 208-214). Its countdown never reaches zero, so it follows `ln_Succ` from the head past the back sentinel, whose `ln_Succ` is null, and then dereferences null. The model returns that NullPointerException without modelling how many steps the walk takes. On an empty list, `add` with a negative index reaches `addFirst` (lines 241-242) and does not fault. On a non-empty list it calls `get` and faults the same way.
- LinkedList.Remove / LinkedList.RemoveUnlinks: these take the head through the corrected `removeFirst`. They do not promise what the source's `remove` does to the head of a list of two or more. `LinkedList.RemoveAsWritten` is the source's version, and `LinkedList.RemoveAsWrittenHeadStale` shows that it leaves the front sentinel's link stale.
- LinkedList.Clear / LinkedList.ClearEmpties: these call the corrected `removeFirst`. The source's `clear` calls the as-written one and is modelled by `LinkedList.ClearAsWritten`. `LinkedList.ClearAsWrittenEmpties` proves that it also leaves an empty list, with the same count, head and tail. The two final heaps can still differ in their stale `ln_Succ` links.
- **Character classes.** `toLowerCase`, `toUpperCase`, `Character.isDigit`, `Character.isWhitespace` and `trim` are modelled on ASCII characters only.
- **Scanf floating-point values.** A decimal field keeps the text it read. `Float.parseFloat`, `Double.parseDouble` and `new BigDecimal` are modelled only by whether they accept the text: a digit is needed and a comma is rejected.
- **Scanf output variables.** The `OutVariable` list is modelled by the sequence of fields assigned and its length. The stop index and the count of unprocessed elements in `Scan` are observations of the model, not outputs of the source.
- **`strtok_s` and `_stscanf_s`.** These wrappers around `StringTokenizer` and `sscanf` are not modelled.
- CollectionExtensions.Find: a null array or selector (NullPointerException) is not modelled. Neither is a null element, which a selector may accept, making the null result ambiguous.
- **Other repository code.** `DecimalUtils`, the downloader and worker threads, resource bundles, operating-system probes and the plain data holders carry no behaviour in this model.

## Findings

| source | as written | input that shows it | evidently intended | confidence | as-written member | corrected member |
|---|---|---|---|---|---|---|
| src/ca/hss/math/LinkedList.java:297-302 | `removeFirst` points the new head's `ln_Pred` at the front sentinel, but leaves the sentinel's `ln_Succ` on the removed node | `[A, B]`, then `removeFirst()`, then `addFirst(C)`, then `get(1)` returns the removed `A` | the sentinel's `ln_Succ` moves to the new head. `addFirst` (lines 143-148) inserts after `head.ln_Pred`, which is only right if that sentinel's `ln_Succ` is the head; its documentation promises that the item becomes the first element. So `get(1)` returns `B` | high; not executed | LinkedList.RemovedHeadComesBack | LinkedList.RemovedHeadStaysGone |
| src/main/java/ca/hss/text/StringExtensions.java:343-344 | the scan breaks once the index reaches the last character, `strindex >= str.length() - 1`, even when elements remain | `sscanf("1 2", "%d %d", two vars)` returns 1 and leaves the second variable unassigned | stop only when the input is used up, so the final one-character field is read and the call returns 2 | medium; not executed | Scanf.LastFieldDroppedAsWritten | Scanf.LastFieldReadCorrected |

Further members for the first row:

- As written:
  - `LinkedList.RemoveFirstAsWritten` models the source's `removeFirst`.
  - `LinkedList.RemoveFirstAsWrittenLeavesStaleLink` shows that the stale link breaks the list structure for every list of two or more elements.
  - `LinkedList.RemoveAsWrittenHeadStale` shows that `remove` of the head inherits the stale link.
- Corrected:
  - `LinkedList.RemoveFirstUnlinks` proves that the corrected `RemoveFirst` keeps the list valid.
  - `Remove` and `Clear` use the corrected version. `LinkedList.ClearAsWritten` is the source's `clear`, and it empties the list even with the stale links.
