/**
 * The biomarker card: its own green/yellow/red status (a different rule from
 * the outlier list's), the slider position, the split of a label such as
 * "C-Reactive Protein (hs-CRP)" into a main label and a sub-label, and the
 * protocol it shows when no specific one is available.
 */
module BiomarkerCard {
  import opened Options
  import opened JsText
  import opened Ranges
  import opened Outliers
  import opened Protocol
  import ProtocolEngine

  // Status.

  /** `inRange`: a missing band holds nothing; a present bound is inclusive, a missing one open. */
  function InRange(v: real, b: Option<Band>): (r: bool)
    ensures r <==> (b.Some? && (b.value.min.None? || b.value.min.value <= v) &&
      (b.value.max.None? || v <= b.value.max.value))
  {
    match b
    case None => false
    case Some(band) =>
      if band.min.Some? && v < band.min.value then false
      else if band.max.Some? && v > band.max.value then false
      else true
  }

  /** The outlier list's inner `matches` mode, which it never uses, is the card's `inRange`. */
  lemma InnerMatchIsInRange(b: Option<Band>, v: real)
    ensures Matches(b, v, false) == InRange(v, b)
  {
  }

  /** The card's chain: green when in the green band, else yellow when in the yellow band, else red. */
  function CardStatus(v: real, t: Thresholds): (s: Status)
    ensures s == Green <==> InRange(v, Some(t.green))
    ensures s == Yellow <==> !InRange(v, Some(t.green)) && InRange(v, t.yellow)
    ensures s == Red <==> !InRange(v, Some(t.green)) && !InRange(v, t.yellow)
  {
    if InRange(v, Some(t.green)) then Green
    else if InRange(v, t.yellow) then Yellow
    else Red
  }

  /** The card never looks at the red band. */
  lemma CardIgnoresRedBand(v: real, t: Thresholds, red: Option<Band>)
    ensures CardStatus(v, t.(red := red)) == CardStatus(v, t)
  {
  }

  /** Whatever the outlier list calls green, the card calls green too. */
  lemma OutlierGreenIsCardGreen(v: real, t: Thresholds)
    requires OutlierStatus(v, t) == Green
    ensures CardStatus(v, t) == Green
  {
  }

  /** The two rules disagree: a red band reaching into the green band. */
  lemma CardGreenWhereOutlierRed()
    ensures var t := Thresholds(Band(Some(0.0), Some(10.0)), None, Some(Band(None, Some(5.0))));
      CardStatus(3.0, t) == Green && OutlierStatus(3.0, t) == Red
  {
  }

  /** The two rules disagree: a one-sided green band. */
  lemma CardGreenWhereOutlierYellow()
    ensures var t := Thresholds(Band(Some(0.0), None), None, None);
      CardStatus(3.0, t) == Green && OutlierStatus(3.0, t) == Yellow
  {
  }

  /** The two rules disagree: a value outside green with no other band. */
  lemma CardRedWhereOutlierYellow()
    ensures var t := Thresholds(Band(Some(0.0), Some(10.0)), None, None);
      CardStatus(30.0, t) == Red && OutlierStatus(30.0, t) == Yellow
  {
  }

  // Slider position.

  /** `thresholds.green.max ?? 100`. */
  function SafeMax(t: Thresholds): real {
    if t.green.max.Some? then t.green.max.value else 100.0
  }

  /** `sliderConfig?.max ?? Math.max(safeMax * 3, value * 1.2)`. */
  function DisplayMax(t: Thresholds, value: real, sliderMax: Option<real>): (d: real)
    ensures sliderMax.Some? ==> d == sliderMax.value
    ensures sliderMax.None? ==> d >= 3.0 * SafeMax(t) && d >= 1.2 * value
    ensures sliderMax.None? ==> d == 3.0 * SafeMax(t) || d == 1.2 * value
  {
    match sliderMax
    case Some(m) => m
    case None => if SafeMax(t) * 3.0 >= value * 1.2 then SafeMax(t) * 3.0 else value * 1.2
  }

  /** `Math.min(100, Math.max(0, x))`. */
  function Clamp(x: real): (r: real)
    ensures 0.0 <= r <= 100.0
    ensures 0.0 <= x <= 100.0 ==> r == x
  {
    if x < 0.0 then 0.0 else if x > 100.0 then 100.0 else x
  }

  /**
   * `Math.min(100, Math.max(0, (value / displayMax) * 100))`. A zero
   * `displayMax` divides to an infinity, clamped to 100 or 0, or for a zero
   * value to NaN, which the clamp passes through: `None` stands for NaN.
   */
  function Percentage(value: real, displayMax: real): (p: Option<real>)
    ensures p.None? <==> value == 0.0 && displayMax == 0.0
    ensures p.Some? ==> 0.0 <= p.value <= 100.0
    ensures displayMax > 0.0 && 0.0 <= value <= displayMax ==> p == Some(value / displayMax * 100.0)
    ensures displayMax > 0.0 && value > displayMax ==> p == Some(100.0)
    ensures displayMax > 0.0 && value < 0.0 ==> p == Some(0.0)
  {
    if displayMax == 0.0 then
      if value > 0.0 then Some(100.0) else if value < 0.0 then Some(0.0) else None
    else
      Some(Clamp(value / displayMax * 100.0))
  }

  /** Without a slider override and with a positive green maximum a value never reaches the far end. */
  lemma DefaultScaleLeavesHeadroom(t: Thresholds, value: real)
    requires SafeMax(t) > 0.0 && value >= 0.0
    ensures var p := Percentage(value, DisplayMax(t, value, None));
      p.Some? && p.value * 1.2 <= 100.0
  {
    var d := DisplayMax(t, value, None);
    assert d > 0.0;
    assert value * 1.2 <= d;
    assert value / d * 1.2 <= 1.0 by {
      assert value / d * 1.2 * d == value * 1.2;
    }
  }

  // Label split.

  /** The length of the run of `\s` characters that starts at `k`. */
  function SpaceRun(s: string, k: nat): (n: nat)
    requires k <= |s|
    ensures k + n <= |s|
    ensures forall j :: k <= j < k + n ==> IsJsSpace(s[j])
    ensures k + n < |s| ==> !IsJsSpace(s[k + n])
    decreases |s| - k
  {
    if k < |s| && IsJsSpace(s[k]) then 1 + SpaceRun(s, k + 1) else 0
  }

  /** `\(.*\)$` matches from `q`: "(" there, ")" last, and no line terminator between. */
  predicate ParenTailAt(s: string, q: nat) {
    q + 1 < |s| && s[q] == '(' && s[|s| - 1] == ')' &&
    forall j :: q < j < |s| - 1 ==> !IsLineTerminator(s[j])
  }

  /** The rest of the pattern, the greedy `\s*` and `\(.*\)$`, matches from `k`. */
  predicate TailMatchesAt(s: string, k: nat)
    requires k <= |s|
  {
    ParenTailAt(s, k + SpaceRun(s, k))
  }

  /**
   * The lazy `(.*?)`: the shortest extension from `from` after which the
   * greedy `\s*` and `\(.*\)$` match, extending only over characters that `.`
   * accepts.
   */
  function LazySplitFrom(s: string, from: nat): (r: Option<nat>)
    requires from <= |s|
    ensures r.Some? ==> from <= r.value <= |s| && TailMatchesAt(s, r.value)
    ensures r.Some? ==> forall j :: from <= j < r.value ==> !IsLineTerminator(s[j])
    ensures r.Some? ==> forall j :: from <= j < r.value ==> !TailMatchesAt(s, j)
    decreases |s| - from
  {
    if TailMatchesAt(s, from) then Some(from)
    else if from < |s| && !IsLineTerminator(s[from]) then LazySplitFrom(s, from + 1)
    else None
  }

  /** `mainLabel` and `subLabel` (`None` for `null`). */
  datatype LabelParts = LabelParts(main: string, sub: Option<string>)

  /** `label.match(/^(.*?)\s*(\(.*\))$/)` and the two groups, or the whole label. */
  function SplitLabel(s: string): (r: LabelParts)
    ensures r.sub.None? ==> r.main == s
    ensures r.sub.Some? ==> (|r.main| + |r.sub.value| <= |s| && s[..|r.main|] == r.main &&
      s[|s| - |r.sub.value|..] == r.sub.value && AllSpaces(s[|r.main|..|s| - |r.sub.value|]))
    ensures r.sub.Some? ==> |r.sub.value| >= 2 && r.sub.value[0] == '(' && r.sub.value[|r.sub.value| - 1] == ')'
    ensures r.sub.Some? ==> NoLineTerminator(r.main) && NoLineTerminator(r.sub.value)
  {
    match LazySplitFrom(s, 0)
    case None => LabelParts(s, None)
    case Some(k) => LabelParts(s[..k], Some(s[k + SpaceRun(s, k)..]))
  }

  /** Where the run of `\s` characters that ends just before `f` begins. */
  function RunStart(s: string, f: nat): (k: nat)
    requires f <= |s|
    ensures k <= f
    ensures forall j :: k <= j < f ==> IsJsSpace(s[j])
    ensures k > 0 ==> !IsJsSpace(s[k - 1])
  {
    if f > 0 && IsJsSpace(s[f - 1]) then RunStart(s, f - 1) else f
  }

  lemma SpaceRunUpTo(s: string, k: nat, f: nat)
    requires k <= f < |s| && !IsJsSpace(s[f])
    requires forall j :: k <= j < f ==> IsJsSpace(s[j])
    ensures SpaceRun(s, k) == f - k
    decreases f - k
  {
    if k < f {
      SpaceRunUpTo(s, k + 1, f);
    }
  }

  lemma {:induction false} LazySplitFindsRunStart(s: string, f: nat, from: nat)
    requires NoLineTerminator(s) && f + 1 < |s| && s[f] == '(' && s[|s| - 1] == ')'
    requires forall j :: 0 <= j < f ==> s[j] != '('
    requires from <= RunStart(s, f)
    ensures LazySplitFrom(s, from) == Some(RunStart(s, f))
    decreases RunStart(s, f) - from
  {
    var k := RunStart(s, f);
    if from == k {
      SpaceRunUpTo(s, k, f);
    } else {
      var q := from + SpaceRun(s, from);
      assert !IsJsSpace(s[k - 1]);
      assert q < f;
      LazySplitFindsRunStart(s, f, from + 1);
    }
  }

  /**
   * For a label on one line that ends with ")" and contains "(": the main
   * label is the text before the whitespace that precedes the first "(", and
   * the sub-label runs from that "(" to the end.
   */
  lemma SplitAtFirstParenthesis(s: string, f: nat)
    requires NoLineTerminator(s) && |s| > 0 && s[|s| - 1] == ')'
    requires f < |s| && s[f] == '(' && forall j :: 0 <= j < f ==> s[j] != '('
    ensures SplitLabel(s) == LabelParts(s[..RunStart(s, f)], Some(s[f..]))
  {
    LazySplitFindsRunStart(s, f, 0);
    SpaceRunUpTo(s, RunStart(s, f), f);
  }

  lemma {:induction false} LazySplitFails(s: string, from: nat)
    requires from <= |s|
    requires forall q :: !ParenTailAt(s, q)
    ensures LazySplitFrom(s, from) == None
    decreases |s| - from
  {
    if from < |s| && !IsLineTerminator(s[from]) {
      LazySplitFails(s, from + 1);
    }
  }

  /** A label without "(" or without a final ")" is shown whole, with no sub-label. */
  lemma NoParenthesisNoSplit(s: string)
    requires '(' !in s || s == [] || s[|s| - 1] != ')'
    ensures SplitLabel(s) == LabelParts(s, None)
  {
    LazySplitFails(s, 0);
  }

  // Protocol shown on the card.

  /** The record the card falls back to. */
  const Fallback: ProtocolMatch := ProtocolMatch(
    "Observation", "Monitor & Consult",
    "Value is outside optimal range. No specific protocol indexed.", None,
    Some(Dosing("N/A", "N/A", "N/A", "N/A")), Some(Safety("Consult clinician.", "")), "General")

  /** How the request for a protocol ended: a response carrying a protocol or `null`, or an error. */
  datatype FetchOutcome = Responded(protocol: Option<ProtocolMatch>) | FetchFailed

  /** The protocol the card holds after the request: the response's, or the fallback. */
  function CardProtocol(o: FetchOutcome): (p: ProtocolMatch)
    ensures o.Responded? && o.protocol.Some? ==> p == o.protocol.value
    ensures p != Fallback ==> o == Responded(Some(p))
  {
    match o
    case Responded(Some(p)) => p
    case _ => Fallback
  }

  /** A `null` protocol and a failed request end in the same record, which hides the dosing block. */
  lemma FallbackHidesDosing()
    ensures CardProtocol(Responded(None)) == CardProtocol(FetchFailed) == Fallback
    ensures !ShowsDosing(Fallback)
  {
  }

  /**
   * End to end: the card shows a dosing block for a marker exactly when the
   * engine matched a symptom row and found no trial row or one whose dose is
   * not "N/A".
   */
  lemma CardDosingForEngine(symptoms: seq<ProtocolEngine.SymptomRow>, trials: seq<ProtocolEngine.TrialRow>, marker: string)
    ensures var r := ProtocolEngine.Resolve(symptoms, trials, marker);
      ShowsDosing(CardProtocol(Responded(r))) <==>
        r.Some? && r.value.dosing.Some? && r.value.dosing.value.dose != "N/A"
  {
  }
}
