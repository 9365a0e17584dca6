/**
 * The outlier list the dashboard hands to the recommendation service: each
 * marker with a range entry and a value is classified red, yellow or green
 * against the entry's bands, and the green ones are dropped.
 */
module Outliers {
  import opened Options
  import opened JsArray
  import opened JsRecord
  import opened Ranges

  /**
   * The local `matches` helper. With `isRed` a band matches when the value is
   * at or below its `max` or at or above its `min` (an outward test);
   * otherwise when the value violates neither bound.
   */
  function Matches(t: Option<Band>, v: real, isRed: bool): bool {
    match t
    case None => false
    case Some(b) =>
      if isRed then
        if b.max.Some? && v <= b.max.value then true
        else if b.min.Some? && v >= b.min.value then true
        else false
      else
        if b.min.Some? && v < b.min.value then false
        else if b.max.Some? && v > b.max.value then false
        else true
  }

  /** A band that reaches `v` from outside: `v` is at or beyond one of its bounds. */
  predicate Reaches(t: Option<Band>, v: real) {
    t.Some? && ((t.value.max.Some? && v <= t.value.max.value) || (t.value.min.Some? && v >= t.value.min.value))
  }

  /** The outward test is `Reaches`. */
  lemma MatchesOutward(t: Option<Band>, v: real)
    ensures Matches(t, v, true) <==> Reaches(t, v)
  {
  }

  /**
   * The status chain of `getOutliers`: red when the red band matches; yellow
   * when the yellow band matches and holds both bounds around the value; and
   * a status still green is kept only when the green band holds both bounds
   * around the value, turning yellow otherwise.
   */
  function OutlierStatus(v: real, t: Thresholds): (s: Status)
    ensures s == Red <==> Reaches(t.red, v)
    ensures s == Yellow <==> !Reaches(t.red, v) && ((t.yellow.Some? && Within(t.yellow.value, v)) || !Within(t.green, v))
    ensures s == Green <==> !Reaches(t.red, v) && !(t.yellow.Some? && Within(t.yellow.value, v)) && Within(t.green, v)
  {
    var status :=
      if Matches(t.red, v, true) then Red
      else if Matches(t.yellow, v, true) then
        var y := t.yellow.value;
        if y.min.Some? && v >= y.min.value && y.max.Some? && v <= y.max.value then Yellow else Green
      else Green;
    if status == Green then
      var g := t.green;
      if g.min.Some? && v >= g.min.value && g.max.Some? && v <= g.max.value then Green else Yellow
    else status
  }

  /** A green band missing a bound never yields green. */
  lemma OneSidedGreenNeverGreen(v: real, t: Thresholds)
    requires t.green.min.None? || t.green.max.None?
    ensures OutlierStatus(v, t) != Green
  {
  }

  /** A red match wins even for a value inside the green band. */
  lemma RedBeatsGreen(v: real, t: Thresholds)
    requires Within(t.green, v) && Reaches(t.red, v)
    ensures OutlierStatus(v, t) == Red
  {
  }

  /** One entry of the list: the entry's label and unit with the value and its status. */
  datatype Outlier = Outlier(displayLabel: string, value: real, unit: string, status: Status)

  /** The `map` callback for one marker; `None` is its `null`. */
  function OutlierOf(key: string, value: Option<real>, ranges: seq<RangeDef>): (r: Option<Outlier>)
    ensures r.Some? <==> (FindRange(ranges, key).Some? && value.Some? &&
      OutlierStatus(value.value, FindRange(ranges, key).value.thresholds) != Green)
    ensures r.Some? ==> r.value == Outlier(FindRange(ranges, key).value.displayLabel, value.value,
      FindRange(ranges, key).value.unit, OutlierStatus(value.value, FindRange(ranges, key).value.thresholds))
  {
    match FindRange(ranges, key)
    case None => None
    case Some(range) =>
      match value
      case None => None
      case Some(v) =>
        var status := OutlierStatus(v, range.thresholds);
        if status == Green then None
        else Some(Outlier(range.displayLabel, v, range.unit, status))
  }

  /** `getOutliers`: `Object.entries(markers).map(...).filter(Boolean)`. */
  function GetOutliers(markers: Record<Option<real>>, ranges: seq<RangeDef>): (r: seq<Outlier>)
    ensures |r| <= |markers|
    ensures forall o :: o in r ==> o.status != Green
  {
    var f := (e: (string, Option<real>)) => OutlierOf(e.0, e.1, ranges);
    var r := MapNonNull(markers, f);
    assert forall o :: o in r ==> o.status != Green by {
      forall o | o in r
        ensures o.status != Green
      {
        MapNonNullMembers(markers, f, o);
      }
    }
    r
  }

  /** The list keeps the markers' entry order. */
  lemma GetOutliersAppend(a: Record<Option<real>>, b: Record<Option<real>>, ranges: seq<RangeDef>)
    ensures GetOutliers(a + b, ranges) == GetOutliers(a, ranges) + GetOutliers(b, ranges)
  {
    MapNonNullAppend(a, b, (e: (string, Option<real>)) => OutlierOf(e.0, e.1, ranges));
  }

  /** An outlier is listed exactly when some marker entry produces it. */
  lemma GetOutliersMembers(markers: Record<Option<real>>, ranges: seq<RangeDef>, o: Outlier)
    ensures o in GetOutliers(markers, ranges) <==>
      exists i :: 0 <= i < |markers| && OutlierOf(markers[i].0, markers[i].1, ranges) == Some(o)
  {
    MapNonNullMembers(markers, (e: (string, Option<real>)) => OutlierOf(e.0, e.1, ranges), o);
  }
}
