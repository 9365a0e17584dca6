/**
 * The marker-label normaliser of the upload page (`normalizeKey` and
 * `mapKeyToId`): a label is lower-cased and stripped to `[a-z0-9]`, then an
 * ordered chain of substring tests picks a canonical biomarker id.
 */
module MarkerIds {
  import opened Options
  import opened JsText

  /** Every id `MapKeyToId` can return. */
  const CanonicalIds: set<string> := {
    "hba1c", "glucose", "crp", "albumin", "creatinine", "alp", "wbc", "mcv", "rdw",
    "lymphocytes_percent", "vit_d", "vit_b12", "age"
  }

  /** The canonical id of a column or row label. */
  function MapKeyToId(key: string): (r: Option<string>)
    ensures r.Some? ==> r.value in CanonicalIds
    ensures r == Some("age") ==> Normalize(key) == "age" || Normalize(key) == "chronologicalage"
  {
    IdOfNormalForm(Normalize(key))
  }

  /** The chain of substring tests on a normalised label, in source order; the first test that passes wins. */
  function IdOfNormalForm(n: string): (r: Option<string>)
    ensures r.Some? ==> r.value in CanonicalIds
    ensures r == Some("age") ==> n == "age" || n == "chronologicalage"
  {
    if Contains(n, "hba1c") then Some("hba1c")
    else if Contains(n, "glucose") then Some("glucose")
    else if Contains(n, "crp") || Contains(n, "creactive") then Some("crp")
    else if Contains(n, "albumin") then Some("albumin")
    else if Contains(n, "creatinine") then Some("creatinine")
    else if Contains(n, "alp") || Contains(n, "alkaline") || Contains(n, "phosphatase") then Some("alp")
    else if Contains(n, "wbc") || Contains(n, "whiteblood") || Contains(n, "leukocyte") then Some("wbc")
    else if Contains(n, "mcv") || Contains(n, "corp") then Some("mcv")
    else if Contains(n, "rdw") || Contains(n, "distribution") then Some("rdw")
    else if Contains(n, "lymph") && (Contains(n, "percent") || Contains(n, "pct") || Contains(n, "%")) then
    Some("lymphocytes_percent")
    else if Contains(n, "vit") && Contains(n, "d") then Some("vit_d")
    else if Contains(n, "vit") && Contains(n, "12") then Some("vit_b12")
    else if n == "age" || n == "chronologicalage" then Some("age")
    else None
  }

  // The same chain written as data: an ordered table of tagged rules.

  datatype Test = Has(part: string) | Is(whole: string)

  /** A rule yields `id` when every test of one of its alternatives passes. */
  datatype Rule = Rule(id: string, alternatives: seq<seq<Test>>)

  predicate Passes(t: Test, n: string) {
    match t
    case Has(part) => Contains(n, part)
    case Is(whole) => n == whole
  }

  predicate AllPass(ts: seq<Test>, n: string) {
    forall i :: 0 <= i < |ts| ==> Passes(ts[i], n)
  }

  predicate Fires(rule: Rule, n: string) {
    exists j :: 0 <= j < |rule.alternatives| && AllPass(rule.alternatives[j], n)
  }

  const Rules: seq<Rule> := [
    Rule("hba1c", [[Has("hba1c")]]),
    Rule("glucose", [[Has("glucose")]]),
    Rule("crp", [[Has("crp")], [Has("creactive")]]),
    Rule("albumin", [[Has("albumin")]]),
    Rule("creatinine", [[Has("creatinine")]]),
    Rule("alp", [[Has("alp")], [Has("alkaline")], [Has("phosphatase")]]),
    Rule("wbc", [[Has("wbc")], [Has("whiteblood")], [Has("leukocyte")]]),
    Rule("mcv", [[Has("mcv")], [Has("corp")]]),
    Rule("rdw", [[Has("rdw")], [Has("distribution")]]),
    Rule("lymphocytes_percent",
       [[Has("lymph"), Has("percent")], [Has("lymph"), Has("pct")], [Has("lymph"), Has("%")]]),
    Rule("vit_d", [[Has("vit"), Has("d")]]),
    Rule("vit_b12", [[Has("vit"), Has("12")]]),
    Rule("age", [[Is("age")], [Is("chronologicalage")]])
  ]

  /** The id of the first rule that fires on `n`. */
  function ByRules(rules: seq<Rule>, n: string): Option<string> {
    if rules == [] then None
    else if Fires(rules[0], n) then Some(rules[0].id)
    else ByRules(rules[1..], n)
  }

  /** `ByRules` yields the id of the first rule that fires, and nothing when none fires. */
  lemma {:induction false} ByRulesIsFirstFiring(rules: seq<Rule>, n: string)
    ensures ByRules(rules, n).None? <==> forall i :: 0 <= i < |rules| ==> !Fires(rules[i], n)
    ensures ByRules(rules, n).Some? ==>
      exists i :: (0 <= i < |rules| && rules[i].id == ByRules(rules, n).value && Fires(rules[i], n)
                   && forall j :: 0 <= j < i ==> !Fires(rules[j], n))
  {
    if rules != [] && !Fires(rules[0], n) {
      ByRulesIsFirstFiring(rules[1..], n);
      assert forall i :: 1 <= i < |rules| ==> rules[1..][i - 1] == rules[i];
      if ByRules(rules, n).Some? {
        var i :| (0 <= i < |rules[1..]| && rules[1..][i].id == ByRules(rules, n).value && Fires(rules[1..][i], n)
                  && forall j :: 0 <= j < i ==> !Fires(rules[1..][j], n));
        assert rules[i + 1] == rules[1..][i];
        assert forall j :: 0 <= j < i + 1 ==> !Fires(rules[j], n) by {
          forall j | 0 <= j < i + 1 ensures !Fires(rules[j], n) {
            if j > 0 { assert rules[j] == rules[1..][j - 1]; }
          }
        }
      }
    }
  }

  lemma ByRulesAt(rules: seq<Rule>, i: nat, n: string)
    requires i < |rules|
    ensures ByRules(rules[i..], n) == if Fires(rules[i], n) then Some(rules[i].id) else ByRules(rules[i + 1..], n)
  {
    assert rules[i..][1..] == rules[i + 1..];
  }

  lemma FiresOf1(id: string, a: seq<Test>, n: string)
    ensures Fires(Rule(id, [a]), n) <==> AllPass(a, n)
  {
    if AllPass(a, n) { assert AllPass(Rule(id, [a]).alternatives[0], n); }
  }

  lemma FiresOf2(id: string, a: seq<Test>, b: seq<Test>, n: string)
    ensures Fires(Rule(id, [a, b]), n) <==> AllPass(a, n) || AllPass(b, n)
  {
    var alts := [a, b];
    if AllPass(a, n) { assert AllPass(alts[0], n); }
    if AllPass(b, n) { assert AllPass(alts[1], n); }
  }

  lemma FiresOf3(id: string, a: seq<Test>, b: seq<Test>, c: seq<Test>, n: string)
    ensures Fires(Rule(id, [a, b, c]), n) <==> AllPass(a, n) || AllPass(b, n) || AllPass(c, n)
  {
    var alts := [a, b, c];
    if AllPass(a, n) { assert AllPass(alts[0], n); }
    if AllPass(b, n) { assert AllPass(alts[1], n); }
    if AllPass(c, n) { assert AllPass(alts[2], n); }
  }

  lemma AllPassOf1(t: Test, n: string)
    ensures AllPass([t], n) <==> Passes(t, n)
  {
    if !Passes(t, n) { assert !Passes([t][0], n); }
  }

  lemma AllPassOf2(t: Test, u: Test, n: string)
    ensures AllPass([t, u], n) <==> Passes(t, n) && Passes(u, n)
  {
    var ts := [t, u];
    if !Passes(t, n) { assert !Passes(ts[0], n); }
    if !Passes(u, n) { assert !Passes(ts[1], n); }
  }

  // One step of the chain per rule: the table's rule k fires exactly when the
  // source's k-th test passes.

  lemma RuleEnd(n: string)
    ensures ByRules(Rules[13..], n) == None
  {
    assert Rules[13..] == [];
  }

  lemma RuleAge(n: string)
    ensures ByRules(Rules[12..], n) == if n == "age" || n == "chronologicalage" then Some("age") else ByRules(Rules[13..], n)
  {
    ByRulesAt(Rules, 12, n);
    FiresOf2("age", [Is("age")], [Is("chronologicalage")], n);
    AllPassOf1(Is("age"), n); AllPassOf1(Is("chronologicalage"), n);
  }

  lemma RuleVitB12(n: string)
    ensures ByRules(Rules[11..], n) == if Contains(n, "vit") && Contains(n, "12") then Some("vit_b12") else ByRules(Rules[12..], n)
  {
    ByRulesAt(Rules, 11, n);
    FiresOf1("vit_b12", [Has("vit"), Has("12")], n); AllPassOf2(Has("vit"), Has("12"), n);
  }

  lemma RuleVitD(n: string)
    ensures ByRules(Rules[10..], n) == if Contains(n, "vit") && Contains(n, "d") then Some("vit_d") else ByRules(Rules[11..], n)
  {
    ByRulesAt(Rules, 10, n);
    FiresOf1("vit_d", [Has("vit"), Has("d")], n); AllPassOf2(Has("vit"), Has("d"), n);
  }

  lemma RuleLymphPercent(n: string)
    ensures ByRules(Rules[9..], n) == if Contains(n, "lymph") && (Contains(n, "percent") || Contains(n, "pct") || Contains(n, "%")) then Some("lymphocytes_percent") else ByRules(Rules[10..], n)
  {
    ByRulesAt(Rules, 9, n);
    FiresOf3("lymphocytes_percent", [Has("lymph"), Has("percent")], [Has("lymph"), Has("pct")], [Has("lymph"), Has("%")], n);
    AllPassOf2(Has("lymph"), Has("percent"), n); AllPassOf2(Has("lymph"), Has("pct"), n); AllPassOf2(Has("lymph"), Has("%"), n);
  }

  lemma RuleRdw(n: string)
    ensures ByRules(Rules[8..], n) == if Contains(n, "rdw") || Contains(n, "distribution") then Some("rdw") else ByRules(Rules[9..], n)
  {
    ByRulesAt(Rules, 8, n);
    FiresOf2("rdw", [Has("rdw")], [Has("distribution")], n);
    AllPassOf1(Has("rdw"), n); AllPassOf1(Has("distribution"), n);
  }

  lemma RuleMcv(n: string)
    ensures ByRules(Rules[7..], n) == if Contains(n, "mcv") || Contains(n, "corp") then Some("mcv") else ByRules(Rules[8..], n)
  {
    ByRulesAt(Rules, 7, n);
    FiresOf2("mcv", [Has("mcv")], [Has("corp")], n);
    AllPassOf1(Has("mcv"), n); AllPassOf1(Has("corp"), n);
  }

  lemma RuleWbc(n: string)
    ensures ByRules(Rules[6..], n) == if Contains(n, "wbc") || Contains(n, "whiteblood") || Contains(n, "leukocyte") then Some("wbc") else ByRules(Rules[7..], n)
  {
    ByRulesAt(Rules, 6, n);
    FiresOf3("wbc", [Has("wbc")], [Has("whiteblood")], [Has("leukocyte")], n);
    AllPassOf1(Has("wbc"), n); AllPassOf1(Has("whiteblood"), n); AllPassOf1(Has("leukocyte"), n);
  }

  lemma RuleAlp(n: string)
    ensures ByRules(Rules[5..], n) == if Contains(n, "alp") || Contains(n, "alkaline") || Contains(n, "phosphatase") then Some("alp") else ByRules(Rules[6..], n)
  {
    ByRulesAt(Rules, 5, n);
    FiresOf3("alp", [Has("alp")], [Has("alkaline")], [Has("phosphatase")], n);
    AllPassOf1(Has("alp"), n); AllPassOf1(Has("alkaline"), n); AllPassOf1(Has("phosphatase"), n);
  }

  lemma RuleCreatinine(n: string)
    ensures ByRules(Rules[4..], n) == if Contains(n, "creatinine") then Some("creatinine") else ByRules(Rules[5..], n)
  {
    ByRulesAt(Rules, 4, n);
    FiresOf1("creatinine", [Has("creatinine")], n); AllPassOf1(Has("creatinine"), n);
  }

  lemma RuleAlbumin(n: string)
    ensures ByRules(Rules[3..], n) == if Contains(n, "albumin") then Some("albumin") else ByRules(Rules[4..], n)
  {
    ByRulesAt(Rules, 3, n);
    FiresOf1("albumin", [Has("albumin")], n); AllPassOf1(Has("albumin"), n);
  }

  lemma RuleCrp(n: string)
    ensures ByRules(Rules[2..], n) == if Contains(n, "crp") || Contains(n, "creactive") then Some("crp") else ByRules(Rules[3..], n)
  {
    ByRulesAt(Rules, 2, n);
    FiresOf2("crp", [Has("crp")], [Has("creactive")], n);
    AllPassOf1(Has("crp"), n); AllPassOf1(Has("creactive"), n);
  }

  lemma RuleGlucose(n: string)
    ensures ByRules(Rules[1..], n) == if Contains(n, "glucose") then Some("glucose") else ByRules(Rules[2..], n)
  {
    ByRulesAt(Rules, 1, n);
    FiresOf1("glucose", [Has("glucose")], n); AllPassOf1(Has("glucose"), n);
  }

  lemma RuleHba1c(n: string)
    ensures ByRules(Rules[0..], n) == if Contains(n, "hba1c") then Some("hba1c") else ByRules(Rules[1..], n)
  {
    ByRulesAt(Rules, 0, n);
    FiresOf1("hba1c", [Has("hba1c")], n); AllPassOf1(Has("hba1c"), n);
  }


  /** The if-chain and the rule table agree on every label. */
  lemma MapKeyToIdFollowsRules(key: string)
    ensures MapKeyToId(key) == ByRules(Rules, Normalize(key))
  {
    var n := Normalize(key);
    assert MapKeyToId(key) == IdOfNormalForm(n);
    RuleEnd(n); RuleAge(n); RuleVitB12(n); RuleVitD(n); RuleLymphPercent(n); RuleRdw(n); RuleMcv(n);
    RuleWbc(n); RuleAlp(n); RuleCreatinine(n); RuleAlbumin(n); RuleCrp(n); RuleGlucose(n); RuleHba1c(n);
    assert Rules[0..] == Rules;
  }

  /** The id depends only on the normal form of the label. */
  lemma MapKeyToIdOfNormalForm(key: string)
    ensures MapKeyToId(Normalize(key)) == MapKeyToId(key)
  {
    NormalizeIdempotent(key);
  }

  /** The `"%"` alternative of the lymphocyte rule can never pass: normalisation removes `%`. */
  lemma PercentSignNeverSurvives(key: string)
    ensures !Contains(Normalize(key), "%")
  {
    MissingCharExcludes(Normalize(key), "%", '%');
  }

  /** The substrings the chain tests unconditionally before it reaches the `age` test. */
  const MarkerParts: seq<string> := [
      "hba1c", "glucose", "crp", "creactive", "albumin", "creatinine", "alp", "alkaline", "phosphatase",
      "wbc", "whiteblood", "leukocyte", "mcv", "corp", "rdw", "distribution", "lymph", "vit"]

  /** "age" contains none of those substrings. */
  lemma AgeHasNoMarkerPart()
    ensures forall k :: 0 <= k < |MarkerParts| ==> !Contains("age", MarkerParts[k])
  {
    MissingCharsExclude("age", MarkerParts, "bupcbcllpwwlmcrdlv");
  }

  /** "chronologicalage" contains none of those substrings. */
  lemma ChronologicalAgeHasNoMarkerPart()
    ensures forall k :: 0 <= k < |MarkerParts| ==> !Contains("chronologicalage", MarkerParts[k])
  {
    MissingCharsExclude("chronologicalage", MarkerParts, "buptbtpkpwwumpddyv");
  }

  /** A normal form that is "age" or "chronologicalage" and passes none of the earlier tests maps to "age". */
  lemma AgeTestReached(m: string)
    requires m == "age" || m == "chronologicalage"
    requires forall k :: 0 <= k < |MarkerParts| ==> !Contains(m, MarkerParts[k])
    ensures IdOfNormalForm(m) == Some("age")
  {
    assert !Contains(m, MarkerParts[0]) &&
      !Contains(m, MarkerParts[1]) &&
      !Contains(m, MarkerParts[2]) &&
      !Contains(m, MarkerParts[3]) &&
      !Contains(m, MarkerParts[4]) &&
      !Contains(m, MarkerParts[5]) &&
      !Contains(m, MarkerParts[6]) &&
      !Contains(m, MarkerParts[7]) &&
      !Contains(m, MarkerParts[8]) &&
      !Contains(m, MarkerParts[9]) &&
      !Contains(m, MarkerParts[10]) &&
      !Contains(m, MarkerParts[11]) &&
      !Contains(m, MarkerParts[12]) &&
      !Contains(m, MarkerParts[13]) &&
      !Contains(m, MarkerParts[14]) &&
      !Contains(m, MarkerParts[15]) &&
      !Contains(m, MarkerParts[16]) &&
      !Contains(m, MarkerParts[17]);
  }

  /** `age` is produced exactly for the labels that normalise to "age" or "chronologicalage". */
  lemma AgeOnlyForExactLabels(key: string)
    ensures MapKeyToId(key) == Some("age") <==> Normalize(key) in {"age", "chronologicalage"}
  {
    AgeHasNoMarkerPart();
    ChronologicalAgeHasNoMarkerPart();
    AgeTestReached("age");
    AgeTestReached("chronologicalage");
  }
}
