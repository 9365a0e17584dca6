/**
 * Entries of the reference-range table: for each marker id a display label,
 * a unit, an optional category, the colour bands and an optional slider
 * override. The table's contents are an input of the model.
 */
module Ranges {
  import opened Options
  import opened JsArray

  /** `{ min?: number, max?: number }`. */
  datatype Band = Band(min: Option<real>, max: Option<real>)

  /** The green band is always present; the yellow and red bands may be missing. */
  datatype Thresholds = Thresholds(green: Band, yellow: Option<Band>, red: Option<Band>)

  /** One entry (`displayLabel` is its `label` field); `sliderMax` is the slider override's `max`, if the entry has one. */
  datatype RangeDef = RangeDef(
    id: string, displayLabel: string, unit: string, category: Option<string>,
    thresholds: Thresholds, sliderMax: Option<real>)

  datatype Status = Green | Yellow | Red

  /** `ranges.find(r => r.id === key)`. */
  function FindRange(ranges: seq<RangeDef>, key: string): (r: Option<RangeDef>)
    ensures r.None? <==> forall i :: 0 <= i < |ranges| ==> ranges[i].id != key
    ensures r.Some? ==> exists i :: (0 <= i < |ranges| && ranges[i] == r.value &&
      forall j :: 0 <= j < i ==> ranges[j].id != key)
    ensures r.Some? ==> r.value.id == key
  {
    match FindFirst(ranges, (d: RangeDef) => d.id == key)
    case None => None
    case Some(i) => Some(ranges[i])
  }

  /** Both bounds are present and `v` lies between them, inclusive. */
  predicate Within(b: Band, v: real) {
    b.min.Some? && b.max.Some? && b.min.value <= v <= b.max.value
  }
}
