/**
 The decision logic of the InteractiveMap interaction: the `Within` and
 `NotWithin` answer rules over a great-circle distance, and the short
 response label that names the hemispheres of an answer.

 The haversine distance itself is floating-point trigonometry; it is a
 parameter `distanceKm` of the rules, and the lemmas that need properties of
 it take them as preconditions.
 */
module InteractiveMap {

  /** An answer or reference point `[latitude, longitude]`, in degrees. */
  datatype Point = Point(lat: real, lng: real)

  /** The rule inputs `{p, d}`: a reference point and a radius in km. */
  datatype RuleInputs = RuleInputs(p: Point, d: real)

  /** A distance in km between two points, measured from the first. */
  type DistanceKm = (Point, Point) -> real

  // ---------------------------------------------------------------------------
  // interactiveMapRulesService

  /** `Within(answer, inputs)`: the answer lies no further than `d` from `p`;
      a distance of exactly `d` counts as within. */
  predicate Within(distanceKm: DistanceKm, answer: Point, inputs: RuleInputs)
    ensures Within(distanceKm, answer, inputs) <==> !(inputs.d < distanceKm(inputs.p, answer))
    ensures distanceKm(inputs.p, answer) == inputs.d ==> Within(distanceKm, answer, inputs)
  {
    distanceKm(inputs.p, answer) <= inputs.d
  }

  /** `NotWithin(answer, inputs)`: the answer lies strictly further than `d`
      from `p`. It is its own comparison, not the negation of `Within`. */
  predicate NotWithin(distanceKm: DistanceKm, answer: Point, inputs: RuleInputs)
    ensures NotWithin(distanceKm, answer, inputs) <==> !Within(distanceKm, answer, inputs)
  {
    distanceKm(inputs.p, answer) > inputs.d
  }

  /** Exactly one of the two rules holds for every answer and every input. */
  lemma ExactlyOneRuleHolds(distanceKm: DistanceKm, answer: Point, inputs: RuleInputs)
    ensures Within(distanceKm, answer, inputs) != NotWithin(distanceKm, answer, inputs)
  {
  }

  /** At the boundary the answer is classified within and not outside. */
  lemma BoundaryIsWithin(distanceKm: DistanceKm, answer: Point, inputs: RuleInputs)
    requires distanceKm(inputs.p, answer) == inputs.d
    ensures Within(distanceKm, answer, inputs)
    ensures !NotWithin(distanceKm, answer, inputs)
  {
  }

  /** Both rules measure from the reference point to the answer: for a
      distance that is not symmetric, swapping the two points can change
      the outcome. */
  lemma RulesMeasureFromReference()
    ensures var oneWay: DistanceKm := (a: Point, b: Point) => if a.lat == 0.0 then 1.0 else 0.0;
      var p := Point(0.0, 0.0);
      var answer := Point(1.0, 0.0);
      !Within(oneWay, answer, RuleInputs(p, 0.5)) &&
      NotWithin(oneWay, answer, RuleInputs(p, 0.5)) &&
      oneWay(answer, p) <= 0.5
  {
  }

  /** With a symmetric distance the outcome does not depend on which of the two
      points is the reference. */
  lemma WithinSymmetric(distanceKm: DistanceKm, a: Point, b: Point, d: real)
    requires forall x, y :: distanceKm(x, y) == distanceKm(y, x)
    ensures Within(distanceKm, a, RuleInputs(b, d)) == Within(distanceKm, b, RuleInputs(a, d))
    ensures NotWithin(distanceKm, a, RuleInputs(b, d)) == NotWithin(distanceKm, b, RuleInputs(a, d))
  {
  }

  /** Widening the radius never turns a `Within` answer into a `NotWithin`. */
  lemma WithinMonotoneInRadius(distanceKm: DistanceKm, answer: Point, p: Point, d: real, d': real)
    requires d <= d'
    requires Within(distanceKm, answer, RuleInputs(p, d))
    ensures Within(distanceKm, answer, RuleInputs(p, d'))
    ensures !NotWithin(distanceKm, answer, RuleInputs(p, d'))
  {
  }

  /** Where the distance from a point to itself is zero, the reference point
      itself is within every non-negative radius. */
  lemma ReferencePointIsWithin(distanceKm: DistanceKm, p: Point, d: real)
    requires distanceKm(p, p) == 0.0
    requires 0.0 <= d
    ensures Within(distanceKm, p, RuleInputs(p, d))
    ensures !NotWithin(distanceKm, p, RuleInputs(p, d))
  {
  }

  /** Where distances are never negative, a negative radius admits no answer. */
  lemma NegativeRadiusIsNeverWithin(distanceKm: DistanceKm, answer: Point, inputs: RuleInputs)
    requires distanceKm(inputs.p, answer) >= 0.0
    requires inputs.d < 0.0
    ensures !Within(distanceKm, answer, inputs)
    ensures NotWithin(distanceKm, answer, inputs)
  {
  }

  // ---------------------------------------------------------------------------
  // oppiaShortResponseInteractiveMap

  /** `Math.abs`. */
  function Abs(x: real): (r: real)
    ensures 0.0 <= r
    ensures r == x || r == -x
  {
    if x < 0.0 then -x else x
  }

  /** The hemisphere letter of a coordinate: `nonNegative` for zero and
      above, `negative` below. */
  function HemisphereLetter(x: real, nonNegative: char, negative: char): (c: char)
    requires nonNegative != negative
    ensures c == nonNegative || c == negative
    ensures c == nonNegative <==> 0.0 <= x
  {
    if x >= 0.0 then nonNegative else negative
  }

  /** `N` or `S`: zero counts as north. */
  function LatitudeLetter(lat: real): (c: char)
    ensures c == 'N' || c == 'S'
    ensures c == 'N' <==> 0.0 <= lat
  {
    HemisphereLetter(lat, 'N', 'S')
  }

  /** `E` or `W`: zero counts as east. */
  function LongitudeLetter(lng: real): (c: char)
    ensures c == 'E' || c == 'W'
    ensures c == 'E' <==> 0.0 <= lng
  {
    HemisphereLetter(lng, 'E', 'W')
  }

  /** Reads a signed coordinate back from a magnitude and a hemisphere letter. */
  function SignedDegrees(magnitude: real, letter: char, nonNegative: char): real
  {
    if letter == nonNegative then magnitude else -magnitude
  }

  /** A magnitude and its hemisphere letter determine the coordinate, for
      latitudes and longitudes alike. */
  lemma HemisphereRoundTrip(lat: real, lng: real)
    ensures SignedDegrees(Abs(lat), LatitudeLetter(lat), 'N') == lat
    ensures SignedDegrees(Abs(lng), LongitudeLetter(lng), 'E') == lng
  {
  }

  /** The degree sign and the space that follow each magnitude. */
  const DegreeSuffix: string := "\U{B0} "

  /** The label the short response shows, with `fixed3` standing for
      `toFixed(3)`: latitude part, `", "`, longitude part. */
  function CoordinateLabel(answer: Point, fixed3: real -> string): (shown: string)
    ensures |shown| == |fixed3(Abs(answer.lat))| + |fixed3(Abs(answer.lng))| + 8
    ensures fixed3(Abs(answer.lat)) <= shown
    ensures shown[|shown| - 1] == LongitudeLetter(answer.lng)
  {
    fixed3(Abs(answer.lat)) + DegreeSuffix + [LatitudeLetter(answer.lat)] + ", " +
    fixed3(Abs(answer.lng)) + DegreeSuffix + [LongitudeLetter(answer.lng)]
  }

  /** Where each piece sits in the label: the latitude magnitude first, the
      degree sign and a space, its letter, then `", "`, then the longitude
      magnitude, the degree sign and a space, and the longitude letter last. */
  lemma CoordinateLabelLayout(answer: Point, fixed3: real -> string)
    ensures var shown := CoordinateLabel(answer, fixed3);
      var latText := fixed3(Abs(answer.lat));
      var lngText := fixed3(Abs(answer.lng));
      var comma := |latText| + 3;
      |shown| == |latText| + |lngText| + 8 &&
      shown[..|latText|] == latText &&
      shown[|latText|..|latText| + 2] == DegreeSuffix &&
      shown[|latText| + 2] == LatitudeLetter(answer.lat) &&
      shown[comma..comma + 2] == ", " &&
      shown[comma + 2..comma + 2 + |lngText|] == lngText &&
      shown[|shown| - 3..|shown| - 1] == DegreeSuffix &&
      shown[|shown| - 1] == LongitudeLetter(answer.lng)
  {
  }

  /** The scope of the short-response directive, whose controller builds
      `formattedCoords` piece by piece. */
  class ShortResponseScope {
    var formattedCoords: string

    /** Runs the controller for `answer`. */
    constructor (answer: Point, fixed3: real -> string)
      ensures formattedCoords == CoordinateLabel(answer, fixed3)
    {
      formattedCoords := fixed3(Abs(answer.lat)) + DegreeSuffix;
      formattedCoords := formattedCoords + [LatitudeLetter(answer.lat)];
      formattedCoords := formattedCoords + ", ";
      formattedCoords := formattedCoords + fixed3(Abs(answer.lng)) + DegreeSuffix;
      formattedCoords := formattedCoords + [LongitudeLetter(answer.lng)];
    }
  }
}
