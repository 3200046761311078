/** Angle helpers of `ca.hss.math.General`: normalisation into `[0, base)`,
    the cartesian/compass rotation and the degree/radian scalings. Java
    doubles are modelled as reals; `Math.PI` is an unspecified positive real. */
module General {

  type PositiveReal = x: real | x > 0.0 witness 1.0

  /** `Math.PI`. Nothing about it is assumed except that it is positive. */
  const PI: PositiveReal

  /** Rounding toward zero, as Java's floating `%` uses it. */
  function Trunc(x: real): int {
    if x >= 0.0 then x.Floor else -((-x).Floor)
  }

  /** Java's `%` on doubles: the remainder of a quotient truncated toward zero,
      so it carries the sign of the dividend. */
  function JavaRem(x: real, b: real): real
    requires b != 0.0
  {
    x - b * (Trunc(x / b) as real)
  }

  /** `x` shifted by `k` whole turns of `base`. */
  function Shift(x: real, k: int, base: real): real {
    x + (k as real) * base
  }

  /** `a` and `b` denote the same angle modulo `base`. */
  ghost predicate SameAngle(a: real, b: real, base: real) {
    exists k: int :: a == Shift(b, k, base)
  }

  /** Adding whole turns to one side keeps two angles the same. */
  lemma SameAngleShifted(a: real, b: real, base: real, n: int)
    requires SameAngle(a, b, base)
    ensures SameAngle(a, b + (n as real) * base, base)
  {
    var k :| a == Shift(b, k, base);
    assert a == Shift(b + (n as real) * base, k - n, base);
  }

  /** The same angle is reached from either side of a reflection `x |-> c - x`. */
  lemma SameAngleReflected(a: real, b: real, c: real, base: real)
    requires SameAngle(a, c - b, base)
    ensures SameAngle(c - a, b, base)
  {
    var k :| a == Shift(c - b, k, base);
    assert c - a == Shift(b, -k, base);
  }

  lemma SameAngleTransitive(a: real, b: real, c: real, base: real)
    requires SameAngle(a, b, base) && SameAngle(b, c, base)
    ensures SameAngle(a, c, base)
  {
    var k :| a == Shift(b, k, base);
    var m :| b == Shift(c, m, base);
    assert a == Shift(c, k + m, base);
  }

  /** `x` is a whole number of turns of `base`. */
  predicate WholeTurns(x: real, base: real)
    requires base > 0.0
  {
    (x / base).Floor as real == x / base
  }

  /** ANGLE_CALCULATE_BASE: non-negative inputs below `base` are returned as
      they are, larger ones reduced by the truncated remainder, and negative
      ones get `base` added to their (non-positive) remainder. */
  function AngleCalculateBase(base: real, number: real): (r: real)
    requires base > 0.0
    ensures 0.0 <= r <= base
    ensures number >= 0.0 ==> r < base
    ensures SameAngle(r, number, base)
  {
    JavaRemBounds(number, base);
    if number >= 0.0 then
      if number < base then
        assert number == Shift(number, 0, base);
        number
      else
        JavaRem(number, base)
    else
      assert JavaRem(number, base) + base == Shift(number, -Trunc(number / base) + 1, base);
      JavaRem(number, base) + base
  }

  /** The remainder lies strictly inside one turn, on the dividend's side of
      zero, and differs from the dividend by whole turns. */
  lemma JavaRemBounds(x: real, b: real)
    requires b > 0.0
    ensures x >= 0.0 ==> 0.0 <= JavaRem(x, b) < b
    ensures x < 0.0 ==> -b < JavaRem(x, b) <= 0.0
    ensures JavaRem(x, b) == Shift(x, -Trunc(x / b), b)
  {
    var q := x / b;
    if x >= 0.0 {
      ScaledFloor(x, b, q, q.Floor as real);
    } else {
      ScaledFloor(-x, b, -q, (-q).Floor as real);
    }
  }

  /** `f <= q < f + 1` scaled by the positive `b`, where `x == b * q`. */
  lemma ScaledFloor(x: real, b: real, q: real, f: real)
    requires b > 0.0 && q == x / b && f <= q < f + 1.0
    ensures 0.0 <= x - b * f < b
  {
    var lo, hi := q - f, f + 1.0 - q;
    assert b * lo >= 0.0;
    assert b * hi > 0.0;
    Gap(x, b, b * q, b * f, b * lo, b * hi);
  }

  /** The linear step of ScaledFloor, with the products as plain unknowns. */
  lemma Gap(x: real, b: real, bq: real, bf: real, blo: real, bhi: real)
    requires bq == x && blo == bq - bf && bhi == bf + b - bq && blo >= 0.0 && bhi > 0.0
    ensures 0.0 <= x - bf < b
  {
  }

  /** A negative input lands exactly on `base` (not below it) precisely when
      it is a whole number of turns. */
  lemma AngleCalculateBaseNegative(base: real, number: real)
    requires base > 0.0 && number < 0.0
    ensures 0.0 < AngleCalculateBase(base, number)
    ensures AngleCalculateBase(base, number) == base <==> WholeTurns(number, base)
  {
    JavaRemBounds(number, base);
    var q := number / base;
    var f := (-q).Floor;
    assert Trunc(q) == -f;
    assert JavaRem(number, base) == number + base * (f as real);
    assert number == q * base;
    if JavaRem(number, base) == 0.0 {
      assert (q + f as real) * base == 0.0;
      assert q == -(f as real);
      assert q.Floor == -f;
    }
    if WholeTurns(number, base) {
      assert q.Floor == -f;
      assert JavaRem(number, base) == (q + f as real) * base;
    }
  }

  /** Above `base`, the result is the truncated remainder, inside `[0, base)`. */
  lemma AngleCalculateBaseAbove(base: real, number: real)
    requires base > 0.0 && number >= base
    ensures AngleCalculateBase(base, number) == JavaRem(number, base)
    ensures 0.0 <= AngleCalculateBase(base, number) < base
  {
  }

  /** NORMALIZE_ANGLE_DEGREE: the same angle within one turn of 360. */
  function NormalizeAngleDegree(x: real): (r: real)
    ensures 0.0 <= r <= 360.0 && (x >= 0.0 ==> r < 360.0)
    ensures SameAngle(r, x, 360.0)
  {
    AngleCalculateBase(360.0, x)
  }

  /** NORMALIZE_ANGLE_RADIAN: the same angle within one turn of 2π. */
  function NormalizeAngleRadian(x: real): (r: real)
    ensures 0.0 <= r <= PI * 2.0 && (x >= 0.0 ==> r < PI * 2.0)
    ensures SameAngle(r, x, PI * 2.0)
  {
    AngleCalculateBase(PI * 2.0, x)
  }

  /** Bearing measured clockwise from north, from an angle measured
      counter-clockwise from east. */
  function CartesianToCompassDegree(x: real): (r: real)
    ensures 0.0 <= r <= 360.0
    ensures SameAngle(r, 90.0 - x, 360.0)
  {
    var r := NormalizeAngleDegree(450.0 - x);
    SameAngleShifted(r, 450.0 - x, 360.0, -1);
    r
  }

  function CartesianToCompassRadian(x: real): (r: real)
    ensures 0.0 <= r <= PI * 2.0
    ensures SameAngle(r, PI / 2.0 - x, PI * 2.0)
  {
    var r := NormalizeAngleRadian(PI * 2.5 - x);
    SameAngleShifted(r, PI * 2.5 - x, PI * 2.0, -1);
    r
  }

  /** The source reuses the forward rotation for the inverse direction. */
  function CompassToCartesianDegree(x: real): (r: real)
    ensures 0.0 <= r <= 360.0
    ensures SameAngle(r, 90.0 - x, 360.0)
  {
    CartesianToCompassDegree(x)
  }

  function CompassToCartesianRadian(x: real): (r: real)
    ensures 0.0 <= r <= PI * 2.0
    ensures SameAngle(r, PI / 2.0 - x, PI * 2.0)
  {
    CartesianToCompassRadian(x)
  }

  /** DEGREE_TO_RADIAN: `x` degrees is `r` radians, half a turn being 180
      degrees and π radians. */
  function DegreeToRadian(x: real): (r: real)
    ensures r * 180.0 == x * PI
  {
    (x / 180.0) * PI
  }

  /** RADIAN_TO_DEGREE: `x` radians is `r` degrees. */
  function RadianToDegree(x: real): (r: real)
    ensures r * PI == x * 180.0
  {
    (x * 180.0) * (1.0 / PI)
  }

  /** The reflection `x |-> 1.25*base - x` followed by normalisation, the
      common shape of both rotations. */
  lemma RotateTwice(base: real, x: real, once: real, twice: real)
    requires base > 0.0
    requires once == AngleCalculateBase(base, base * 1.25 - x)
    requires twice == AngleCalculateBase(base, base * 1.25 - once)
    ensures 0.0 <= twice < base
    ensures SameAngle(twice, x, base)
  {
    var k1 :| once == Shift(base * 1.25 - x, k1, base);
    var k2 :| twice == Shift(base * 1.25 - once, k2, base);
    assert twice == Shift(x, k2 - k1, base);
  }

  /** Rotating a degree bearing back with COMPASS_TO_CARTESIAN_DEGREE lands in
      `[0, 360)` on the same angle. */
  lemma CompassRoundTripDegree(x: real)
    ensures 0.0 <= CompassToCartesianDegree(CartesianToCompassDegree(x)) < 360.0
    ensures SameAngle(CompassToCartesianDegree(CartesianToCompassDegree(x)), x, 360.0)
  {
    RotateTwice(360.0, x, CartesianToCompassDegree(x),
      CompassToCartesianDegree(CartesianToCompassDegree(x)));
  }

  lemma CompassRoundTripRadian(x: real)
    ensures 0.0 <= CompassToCartesianRadian(CartesianToCompassRadian(x)) < PI * 2.0
    ensures SameAngle(CompassToCartesianRadian(CartesianToCompassRadian(x)), x, PI * 2.0)
  {
    assert PI * 2.5 == (PI * 2.0) * 1.25;
    RotateTwice(PI * 2.0, x, CartesianToCompassRadian(x),
      CompassToCartesianRadian(CartesianToCompassRadian(x)));
  }

  /** East is bearing 90 and north is direction 0. */
  lemma CompassDegreeExamples()
    ensures CartesianToCompassDegree(0.0) == 90.0
    ensures CartesianToCompassDegree(90.0) == 0.0
  {
    assert Trunc(450.0 / 360.0) == 1;
    assert Trunc(360.0 / 360.0) == 1;
  }

  lemma CompassRadianExample()
    ensures CartesianToCompassRadian(PI / 2.0) == 0.0
    ensures CartesianToCompassRadian(0.0) == PI / 2.0
  {
    var b := PI * 2.0;
    assert PI * 2.5 - PI / 2.0 == b;
    assert b / b == 1.0;
    assert Trunc(b / b) == 1;
    assert (PI * 2.5) / b == 1.25;
    assert Trunc((PI * 2.5) / b) == 1;
  }

  /** The scalings are mutual inverses and a half turn is `PI`. */
  lemma DegreeRadianInverse(x: real)
    ensures RadianToDegree(DegreeToRadian(x)) == x
    ensures DegreeToRadian(RadianToDegree(x)) == x
    ensures DegreeToRadian(180.0) == PI
  {
    var p: real := PI;
    assert (x / 180.0) * p * 180.0 * (1.0 / p) == x * (p * (1.0 / p));
    assert ((x * 180.0) * (1.0 / p) / 180.0) * p == x * ((1.0 / p) * p);
  }
}
