/**
 * The Google Maps directive's parameter checks: whether coordinates or a
 * place name were given, and whether the coordinates are usable numbers in
 * range.
 */
module GoogleMaps {

  /** A JavaScript number as `parseFloat` can return it. */
  datatype JsNumber = NaN | PosInf | NegInf | Finite(value: real)

  /** JavaScript's `x < bound`, false whenever `x` is NaN. */
  predicate Below(x: JsNumber, bound: real) {
    match x
    case NaN => false
    case PosInf => false
    case NegInf => true
    case Finite(v) => v < bound
  }

  /** JavaScript's `x > bound`, false whenever `x` is NaN. */
  predicate Above(x: JsNumber, bound: real) {
    match x
    case NaN => false
    case PosInf => true
    case NegInf => false
    case Finite(v) => v > bound
  }

  /** A finite number within the closed interval. */
  predicate Within(x: JsNumber, lo: real, hi: real) {
    x.Finite? && lo <= x.value <= hi
  }

  const NotNumbers := "Coordinates must be valid numbers"
  const LatitudeOutOfRange := "Latitude must be between -90 and 90"
  const LongitudeOutOfRange := "Longitude must be between -180 and 180"

  /** `CoordinateValidation` */
  datatype Validation = Valid(lat: real, lng: real) | Invalid(error: string)

  /**
   * `validateCoordinates(lat, lng)`, with `parseFloat` as a parameter. The
   * checks run in a fixed order: either number unparsable, then latitude
   * outside [-90, 90], then longitude outside [-180, 180]; the bounds are
   * inclusive and a valid result carries the parsed values.
   */
  function ValidateCoordinates(parseFloat: string -> JsNumber, lat: string, lng: string): (r: Validation)
    ensures r.Valid? <==> Within(parseFloat(lat), -90.0, 90.0) && Within(parseFloat(lng), -180.0, 180.0)
    ensures r.Valid? ==> parseFloat(lat) == Finite(r.lat) && parseFloat(lng) == Finite(r.lng)
    ensures r == Invalid(NotNumbers) <==> parseFloat(lat).NaN? || parseFloat(lng).NaN?
    ensures r == Invalid(LatitudeOutOfRange) <==>
      !parseFloat(lat).NaN? && !parseFloat(lng).NaN? && !Within(parseFloat(lat), -90.0, 90.0)
    ensures r == Invalid(LongitudeOutOfRange) <==>
      !parseFloat(lat).NaN? && !parseFloat(lng).NaN? && Within(parseFloat(lat), -90.0, 90.0)
      && !Within(parseFloat(lng), -180.0, 180.0)
  {
    var latNum := parseFloat(lat);
    var lngNum := parseFloat(lng);
    if latNum.NaN? || lngNum.NaN? then Invalid(NotNumbers)
    else if Below(latNum, -90.0) || Above(latNum, 90.0) then Invalid(LatitudeOutOfRange)
    else if Below(lngNum, -180.0) || Above(lngNum, 180.0) then Invalid(LongitudeOutOfRange)
    else Valid(latNum.value, lngNum.value)
  }

  /** Points exactly on the bounds are accepted. */
  lemma CornersAreValid(parseFloat: string -> JsNumber, lat: string, lng: string)
    requires parseFloat(lat) == Finite(90.0) || parseFloat(lat) == Finite(-90.0)
    requires parseFloat(lng) == Finite(180.0) || parseFloat(lng) == Finite(-180.0)
    ensures ValidateCoordinates(parseFloat, lat, lng).Valid?
  {
  }

  /** Infinite coordinates parse but fail the range check. */
  lemma InfinityIsOutOfRange(parseFloat: string -> JsNumber, lat: string, lng: string)
    requires parseFloat(lat) == PosInf && !parseFloat(lng).NaN?
    ensures ValidateCoordinates(parseFloat, lat, lng) == Invalid(LatitudeOutOfRange)
  {
  }

  /** A directive parameter as it arrives at run time: absent, a string, or some other value. */
  datatype Field = Missing | Text(text: string) | OtherValue

  /** `GoogleMapsEmbedParams`, the fields the type guards look at. */
  datatype EmbedParams = EmbedParams(lat: Field, lng: Field, place: Field)

  /** `hasCoordinates(params)`: both coordinates are strings, empty ones included. */
  predicate HasCoordinates(params: EmbedParams) {
    params.lat.Text? && params.lng.Text?
  }

  /** `hasPlace(params)`: the place is a non-empty string. */
  predicate HasPlace(params: EmbedParams) {
    params.place.Text? && |params.place.text| > 0
  }

  /**
   * The coordinate guard checks type, not content: empty strings pass it, a
   * missing or non-string coordinate fails it; the place guard also rejects
   * the empty string.
   */
  lemma GuardsCheckTypes(lat: Field, lng: Field, place: Field)
    ensures HasCoordinates(EmbedParams(Text(""), Text(""), place))
    ensures lat == Missing || lat == OtherValue ==> !HasCoordinates(EmbedParams(lat, lng, place))
    ensures !HasPlace(EmbedParams(lat, lng, Text("")))
    ensures HasPlace(EmbedParams(lat, lng, place)) ==> place.Text? && place.text != ""
    ensures HasCoordinates(EmbedParams(lat, lng, place)) <==> lat.Text? && lng.Text?
    ensures HasPlace(EmbedParams(lat, lng, place)) <==> place.Text? && place.text != ""
  {
  }
}
