/**
 * Model of services/validation.service.js: the checks the endpoints run on
 * raw request parameters before any query is issued.
 *
 * JavaScript's `parseFloat` / `parseInt` are not reproduced: a request value
 * is modelled by whether it is falsy and, when it is not, by what each of
 * the two parsers returns for it.
 */
module Validation {
  import opened Wrappers

  /** A JavaScript number that may be `NaN`; `T` is `real` after parseFloat, `int` after parseInt. */
  datatype JsNumber<T> = NaN | Num(value: T)

  type Float = JsNumber<real>

  /**
   * A raw parameter: falsy (`undefined`, the empty string), or truthy together
   * with what `parseFloat` and `parseInt` make of it (parseInt truncates toward zero).
   */
  datatype Arg = Falsy | Truthy(asFloat: Float, asInt: JsNumber<int>)

  /** JavaScript `x < bound`; false when `x` is NaN. */
  predicate Below(x: Float, bound: real)
  {
    x.Num? && x.value < bound
  }

  /** JavaScript `x > bound`; false when `x` is NaN. */
  predicate Above(x: Float, bound: real)
  {
    x.Num? && x.value > bound
  }

  /** JavaScript `x <= y`; false when either side is NaN. */
  predicate AtMost(x: Float, y: Float)
  {
    x.Num? && y.Num? && x.value <= y.value
  }

  // ---------------------------------------------------------------------------
  // Accumulated error lists
  // ---------------------------------------------------------------------------

  /** The messages of the checks in `checks` that fail, in the order the checks are listed. */
  function Failing<C>(checks: seq<C>, fails: C -> bool, message: C -> string): (errors: seq<string>)
  {
    if checks == [] then []
    else (if fails(checks[0]) then [message(checks[0])] else []) + Failing(checks[1..], fails, message)
  }

  /** One message per failing check, so never more messages than checks. */
  lemma {:induction false} FailingLength<C>(checks: seq<C>, fails: C -> bool, message: C -> string)
    ensures |Failing(checks, fails, message)| <= |checks|
  {
    if checks != [] {
      FailingLength(checks[1..], fails, message);
    }
  }

  /** The list is empty exactly when no check fails. */
  lemma {:induction false} FailingEmpty<C>(checks: seq<C>, fails: C -> bool, message: C -> string)
    ensures Failing(checks, fails, message) == [] <==> forall c :: c in checks ==> !fails(c)
  {
    if checks != [] {
      FailingEmpty(checks[1..], fails, message);
      assert forall c :: c in checks <==> c == checks[0] || c in checks[1..];
    }
  }

  /** A message is reported exactly when a failing check carries it. */
  lemma {:induction false} FailingReports<C>(checks: seq<C>, fails: C -> bool, message: C -> string, m: string)
    ensures m in Failing(checks, fails, message) <==> exists c :: c in checks && fails(c) && message(c) == m
  {
    if checks != [] {
      FailingReports(checks[1..], fails, message, m);
      assert forall c :: c in checks <==> c == checks[0] || c in checks[1..];
    }
  }

  /** The list for two groups of checks is the list of the first group, then that of the second. */
  lemma {:induction false} FailingAppend<C>(a: seq<C>, b: seq<C>, fails: C -> bool, message: C -> string)
    ensures Failing(a + b, fails, message) == Failing(a, fails, message) + Failing(b, fails, message)
  {
    if a == [] {
      assert a + b == b;
    } else {
      assert (a + b)[0] == a[0];
      assert (a + b)[1..] == a[1..] + b;
      FailingAppend(a[1..], b, fails, message);
    }
  }

  /** The list for a single check. */
  lemma FailingSingle<C>(x: C, fails: C -> bool, message: C -> string)
    ensures Failing([x], fails, message) == if fails(x) then [message(x)] else []
  {
    assert [x][1..] == [];
  }

  // ---------------------------------------------------------------------------
  // validateCoordinates
  // ---------------------------------------------------------------------------

  const MsgCoordinatesRequired := "Latitude e longitude são obrigatórios"
  const MsgNotNumbers := "Coordenadas devem ser números válidos"
  const MsgLatitudeRange := "Latitude deve estar entre -90 e 90 graus"
  const MsgLongitudeRange := "Longitude deve estar entre -180 e 180 graus"

  /** The three checks run on two parsed coordinates, in the order they run. */
  datatype CoordinateCheck = NotNumbers | LatitudeRange | LongitudeRange

  const CoordinateChecks := [NotNumbers, LatitudeRange, LongitudeRange]

  function CoordinateMessage(c: CoordinateCheck): string
  {
    match c
    case NotNumbers => MsgNotNumbers
    case LatitudeRange => MsgLatitudeRange
    case LongitudeRange => MsgLongitudeRange
  }

  /** When a check fails; the range checks are JavaScript comparisons, false on NaN. */
  predicate CoordinateFails(c: CoordinateCheck, lat: Float, lng: Float)
  {
    match c
    case NotNumbers => lat.NaN? || lng.NaN?
    case LatitudeRange => Below(lat, -90.0) || Above(lat, 90.0)
    case LongitudeRange => Below(lng, -180.0) || Above(lng, 180.0)
  }

  /** A parsed (latitude, longitude) pair; either part may be NaN. */
  datatype Coordinates = Coordinates(lat: Float, lng: Float)

  /** The record validateCoordinates returns; `coordinates` is absent when a value is missing. */
  datatype CoordinateValidation = CoordinateValidation(isValid: bool, errors: seq<string>, coordinates: Option<Coordinates>)

  /** The error list for two truthy values, as parsed. */
  function CoordinateErrors(lat: Float, lng: Float): (errors: seq<string>)
    ensures |errors| <= |CoordinateChecks|
  {
    FailingLength(CoordinateChecks, c => CoordinateFails(c, lat, lng), CoordinateMessage);
    Failing(CoordinateChecks, c => CoordinateFails(c, lat, lng), CoordinateMessage)
  }

  /** The specification of validateCoordinates. */
  function CoordinatesVerdict(lat: Arg, lng: Arg): (v: CoordinateValidation)
    ensures v.isValid <==> v.errors == []
    ensures v.coordinates.None? <==> lat.Falsy? || lng.Falsy?
    ensures |v.errors| <= |CoordinateChecks|
  {
    if lat.Falsy? || lng.Falsy? then
      CoordinateValidation(false, [MsgCoordinatesRequired], None)
    else
      var errors := CoordinateErrors(lat.asFloat, lng.asFloat);
      CoordinateValidation(errors == [], errors, Some(Coordinates(lat.asFloat, lng.asFloat)))
  }

  /** The imperative check: one error pushed per failed check. */
  method ValidateCoordinates(lat: Arg, lng: Arg) returns (result: CoordinateValidation)
    ensures result == CoordinatesVerdict(lat, lng)
  {
    var errors: seq<string> := [];
    if lat.Falsy? || lng.Falsy? {
      errors := errors + [MsgCoordinatesRequired];
      return CoordinateValidation(false, errors, None);
    }
    var latNum := lat.asFloat;
    var lngNum := lng.asFloat;
    if latNum.NaN? || lngNum.NaN? {
      errors := errors + [MsgNotNumbers];
    }
    if Below(latNum, -90.0) || Above(latNum, 90.0) {
      errors := errors + [MsgLatitudeRange];
    }
    if Below(lngNum, -180.0) || Above(lngNum, 180.0) {
      errors := errors + [MsgLongitudeRange];
    }
    result := CoordinateValidation(|errors| == 0, errors, Some(Coordinates(latNum, lngNum)));
    CoordinateErrorsUnfold(latNum, lngNum);
  }

  /** The error list, spelled out check by check. */
  lemma CoordinateErrorsUnfold(lat: Float, lng: Float)
    ensures CoordinateErrors(lat, lng) ==
      (if lat.NaN? || lng.NaN? then [MsgNotNumbers] else []) +
      (if Below(lat, -90.0) || Above(lat, 90.0) then [MsgLatitudeRange] else []) +
      (if Below(lng, -180.0) || Above(lng, 180.0) then [MsgLongitudeRange] else [])
  {
    var f := c => CoordinateFails(c, lat, lng);
    assert CoordinateChecks[1..] == [LatitudeRange, LongitudeRange];
    assert CoordinateChecks[1..][1..] == [LongitudeRange];
    assert CoordinateChecks[1..][1..][1..] == [];
  }

  /** A falsy latitude or longitude: exactly the one "required" error, no coordinates. */
  lemma CoordinatesMissing(lat: Arg, lng: Arg)
    requires lat.Falsy? || lng.Falsy?
    ensures !CoordinatesVerdict(lat, lng).isValid
    ensures CoordinatesVerdict(lat, lng).errors == [MsgCoordinatesRequired]
    ensures CoordinatesVerdict(lat, lng).coordinates.None?
  {
  }

  /**
   * Two truthy values are valid exactly when both parse to numbers within
   * [-90, 90] and [-180, 180] (bounds included), and the parsed pair is returned.
   */
  lemma CoordinatesValidIff(lat: Arg, lng: Arg)
    requires lat.Truthy? && lng.Truthy?
    ensures CoordinatesVerdict(lat, lng).isValid <==>
      lat.asFloat.Num? && lng.asFloat.Num? &&
      -90.0 <= lat.asFloat.value <= 90.0 && -180.0 <= lng.asFloat.value <= 180.0
    ensures CoordinatesVerdict(lat, lng).isValid <==> CoordinatesVerdict(lat, lng).errors == []
    ensures CoordinatesVerdict(lat, lng).coordinates == Some(Coordinates(lat.asFloat, lng.asFloat))
  {
    CoordinateErrorsUnfold(lat.asFloat, lng.asFloat);
  }

  /**
   * Each message is reported for exactly its own cause; a NaN value never adds
   * a range error, and the two range errors accumulate.
   */
  lemma CoordinateErrorCauses(lat: Float, lng: Float)
    ensures MsgNotNumbers in CoordinateErrors(lat, lng) <==> lat.NaN? || lng.NaN?
    ensures MsgLatitudeRange in CoordinateErrors(lat, lng) <==> lat.Num? && !(-90.0 <= lat.value <= 90.0)
    ensures MsgLongitudeRange in CoordinateErrors(lat, lng) <==> lng.Num? && !(-180.0 <= lng.value <= 180.0)
    ensures |CoordinateErrors(lat, lng)| <= 3
  {
    CoordinateErrorsUnfold(lat, lng);
  }

  /** Both coordinates out of range: two errors, latitude first. */
  lemma CoordinateErrorsAccumulate(lat: real, lng: real)
    requires !(-90.0 <= lat <= 90.0) && !(-180.0 <= lng <= 180.0)
    ensures CoordinateErrors(Num(lat), Num(lng)) == [MsgLatitudeRange, MsgLongitudeRange]
  {
    CoordinateErrorsUnfold(Num(lat), Num(lng));
  }

  // ---------------------------------------------------------------------------
  // validateRadius
  // ---------------------------------------------------------------------------

  const DefaultRadius := 300
  const MaxRadius := 2000
  const MsgRadiusPositive := "Raio deve ser um número positivo"
  const MsgRadiusTooLarge := "Raio máximo permitido é 2000m"

  /** The record validateRadius returns: `radius` is the default fallback on failure. */
  datatype RadiusValidation = RadiusValidation(isValid: bool, radius: int, error: Option<string>)

  /** validateRadius: default for a falsy value, then the positivity and maximum checks on parseInt. */
  function ValidateRadius(radius: Arg): (v: RadiusValidation)
    ensures v.isValid ==> 1 <= v.radius <= MaxRadius
    ensures !v.isValid ==> v.radius == DefaultRadius && v.error.Some?
    ensures v.isValid <==> v.error.None?
  {
    if radius.Falsy? then RadiusValidation(true, DefaultRadius, None)
    else
      match radius.asInt
      case NaN => RadiusValidation(false, DefaultRadius, Some(MsgRadiusPositive))
      case Num(n) =>
        if n <= 0 then RadiusValidation(false, DefaultRadius, Some(MsgRadiusPositive))
        else if n > MaxRadius then RadiusValidation(false, DefaultRadius, Some(MsgRadiusTooLarge))
        else RadiusValidation(true, n, None)
  }

  /**
   * The radius is accepted exactly when it is falsy (giving 300) or parses to an
   * integer in 1..2000 (giving that integer); each rejection names its cause.
   */
  lemma RadiusCases(radius: Arg)
    ensures ValidateRadius(radius).isValid <==>
      radius.Falsy? || (radius.asInt.Num? && 1 <= radius.asInt.value <= MaxRadius)
    ensures radius.Falsy? ==> ValidateRadius(radius).radius == DefaultRadius
    ensures radius.Truthy? && ValidateRadius(radius).isValid ==> ValidateRadius(radius).radius == radius.asInt.value
    ensures ValidateRadius(radius).error == Some(MsgRadiusPositive) <==>
      radius.Truthy? && (radius.asInt.NaN? || radius.asInt.value <= 0)
    ensures ValidateRadius(radius).error == Some(MsgRadiusTooLarge) <==>
      radius.Truthy? && radius.asInt.Num? && radius.asInt.value > MaxRadius
  {
  }

  // ---------------------------------------------------------------------------
  // validateBounds
  // ---------------------------------------------------------------------------

  const MsgNorthNotAboveSouth := "North deve ser maior que south"
  const MsgEastNotAboveWest := "East deve ser maior que west"
  const MsgBoundsLatitude := "Coordenadas de latitude fora do intervalo válido (-90 a 90)"
  const MsgBoundsLongitude := "Coordenadas de longitude fora do intervalo válido (-180 a 180)"

  /** The four checks run on a map box, in the order they run. */
  datatype BoundsCheck = Ordering | EastWestOrdering | LatitudeBounds | LongitudeBounds

  const BoundsChecks := [Ordering, EastWestOrdering, LatitudeBounds, LongitudeBounds]

  function BoundsMessage(c: BoundsCheck): string
  {
    match c
    case Ordering => MsgNorthNotAboveSouth
    case EastWestOrdering => MsgEastNotAboveWest
    case LatitudeBounds => MsgBoundsLatitude
    case LongitudeBounds => MsgBoundsLongitude
  }

  /** A map box as validateBounds receives it: four numbers, each possibly NaN. */
  datatype Box = Box(north: Float, south: Float, east: Float, west: Float)

  /** When a check fails; every comparison is a JavaScript one, false on NaN. */
  predicate BoundsFails(c: BoundsCheck, b: Box)
  {
    match c
    case Ordering => AtMost(b.north, b.south)
    case EastWestOrdering => AtMost(b.east, b.west)
    case LatitudeBounds => Above(b.north, 90.0) || Below(b.south, -90.0)
    case LongitudeBounds => Above(b.east, 180.0) || Below(b.west, -180.0)
  }

  /** The record validateBounds returns. */
  datatype BoundsValidation = BoundsValidation(isValid: bool, errors: seq<string>)

  /** The specification of validateBounds. */
  function BoundsVerdict(b: Box): (v: BoundsValidation)
    ensures v.isValid <==> v.errors == []
    ensures |v.errors| <= |BoundsChecks|
  {
    FailingLength(BoundsChecks, c => BoundsFails(c, b), BoundsMessage);
    var errors := Failing(BoundsChecks, c => BoundsFails(c, b), BoundsMessage);
    BoundsValidation(errors == [], errors)
  }

  /** The imperative check: one error pushed per failed check. */
  method ValidateBounds(north: Float, south: Float, east: Float, west: Float) returns (result: BoundsValidation)
    ensures result == BoundsVerdict(Box(north, south, east, west))
  {
    BoundsErrorsUnfold(Box(north, south, east, west));
    ghost var expected := BoundsVerdict(Box(north, south, east, west)).errors;
    var errors: seq<string> := [];
    if AtMost(north, south) {
      errors := errors + [MsgNorthNotAboveSouth];
    }
    if AtMost(east, west) {
      errors := errors + [MsgEastNotAboveWest];
    }
    if Above(north, 90.0) || Below(south, -90.0) {
      errors := errors + [MsgBoundsLatitude];
    }
    if Above(east, 180.0) || Below(west, -180.0) {
      errors := errors + [MsgBoundsLongitude];
    }
    assert errors == expected;
    result := BoundsValidation(|errors| == 0, errors);
  }

  /** The error list, spelled out check by check. */
  lemma BoundsErrorsUnfold(b: Box)
    ensures BoundsVerdict(b).errors ==
      (if AtMost(b.north, b.south) then [MsgNorthNotAboveSouth] else []) +
      (if AtMost(b.east, b.west) then [MsgEastNotAboveWest] else []) +
      (if Above(b.north, 90.0) || Below(b.south, -90.0) then [MsgBoundsLatitude] else []) +
      (if Above(b.east, 180.0) || Below(b.west, -180.0) then [MsgBoundsLongitude] else [])
  {
    var f := c => BoundsFails(c, b);
    assert BoundsChecks == [Ordering] + [EastWestOrdering] + [LatitudeBounds] + [LongitudeBounds];
    FailingAppend([Ordering] + [EastWestOrdering] + [LatitudeBounds], [LongitudeBounds], f, BoundsMessage);
    FailingAppend([Ordering] + [EastWestOrdering], [LatitudeBounds], f, BoundsMessage);
    FailingAppend([Ordering], [EastWestOrdering], f, BoundsMessage);
    FailingSingle(Ordering, f, BoundsMessage);
    FailingSingle(EastWestOrdering, f, BoundsMessage);
    FailingSingle(LatitudeBounds, f, BoundsMessage);
    FailingSingle(LongitudeBounds, f, BoundsMessage);
  }

  /**
   * On numeric bounds the box is valid exactly when north > south, east > west,
   * north <= 90, south >= -90, east <= 180 and west >= -180; there is at most
   * one error per check, so at most four.
   */
  lemma BoundsValidIff(north: real, south: real, east: real, west: real)
    ensures BoundsVerdict(Box(Num(north), Num(south), Num(east), Num(west))).isValid <==>
      north > south && east > west && north <= 90.0 && south >= -90.0 && east <= 180.0 && west >= -180.0
    ensures |BoundsVerdict(Box(Num(north), Num(south), Num(east), Num(west))).errors| <= 4
  {
    BoundsErrorsUnfold(Box(Num(north), Num(south), Num(east), Num(west)));
  }

  /** The four messages are distinct, so each names one check. */
  lemma BoundsMessageInjective(c: BoundsCheck, d: BoundsCheck)
    ensures BoundsMessage(c) == BoundsMessage(d) ==> c == d
  {
    assert |MsgNorthNotAboveSouth| == 30 && |MsgEastNotAboveWest| == 28;
    assert |MsgBoundsLatitude| == 59 && |MsgBoundsLongitude| == 62;
  }

  /** Each message is reported exactly when its own check fails. */
  lemma BoundsErrorCause(b: Box, k: BoundsCheck)
    ensures BoundsMessage(k) in BoundsVerdict(b).errors <==> BoundsFails(k, b)
  {
    var f := c => BoundsFails(c, b);
    FailingReports(BoundsChecks, f, BoundsMessage, BoundsMessage(k));
    forall c | c in BoundsChecks
      ensures BoundsMessage(c) == BoundsMessage(k) ==> c == k
    {
      BoundsMessageInjective(c, k);
    }
    assert k in BoundsChecks;
  }

  /** Because every comparison with NaN is false, a box of four NaNs passes every check. */
  lemma BoundsAcceptNaN()
    ensures BoundsVerdict(Box(NaN, NaN, NaN, NaN)).isValid
  {
    BoundsErrorsUnfold(Box(NaN, NaN, NaN, NaN));
  }
}
