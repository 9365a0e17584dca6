/**
 * The protocol engine: a symptom table (biomarker, condition, peptide,
 * mechanism, lifestyle lever) and a table of clinical-trial dosing rows,
 * loaded once; a marker label is matched against the symptom table by
 * normalised substring containment in either direction, and the matched
 * peptide against the trial table.
 */
module ProtocolEngine {
  import opened Options
  import opened JsArray
  import opened JsText
  import opened Protocol

  /** A row of the symptom table; `lifestyleLever` is the optional `Lifestyle_Lever` column. */
  datatype SymptomRow = SymptomRow(
    biomarker: string, condition: string, peptide: string, mechanism: string,
    lifestyleLever: Option<string>)

  /**
   * A row of the trial table: the columns "Peptide / Compound", "Dose (as
   * reported)", "Schedule / duration (as reported)", "Route", "Key notes /
   * cautions" and "Source (URL)".
   */
  datatype TrialRow = TrialRow(
    compound: string, dose: string, schedule: string, route: string, cautions: string, url: string)

  /** The symptom row's biomarker and the normalised marker label contain one another, either way round. */
  predicate SymptomMatches(target: string, row: SymptomRow) {
    var db := Normalize(row.biomarker);
    Contains(db, target) || Contains(target, db)
  }

  /** The trial row's compound contains the peptide, after normalising both. */
  predicate TrialMatches(peptide: string, row: TrialRow) {
    Contains(Normalize(row.compound), Normalize(peptide))
  }

  const TrialTag: string := "Clinical Trial / Non-FDA"
  const GeneralTag: string := "General Recommendation"

  /** The record built from the matched symptom row and the trial row, if one matched. */
  function Assemble(m: SymptomRow, trial: Option<TrialRow>): ProtocolMatch {
    ProtocolMatch(
      m.condition, m.peptide, m.mechanism, m.lifestyleLever,
      Some(Dosing(
        if trial.Some? then trial.value.dose else "Dose varies by indication.",
        if trial.Some? then trial.value.schedule else "As directed by clinician.",
        if trial.Some? then trial.value.route else "SC/Oral",
        if trial.Some? then trial.value.schedule else "See protocol")),
      Some(Safety(
        if trial.Some? then trial.value.cautions else "Consult a physician before use. Research compound.",
        if trial.Some? then trial.value.url else "")),
      if trial.Some? then TrialTag else GeneralTag)
  }

  /** The trial row for `peptide`: the first whose compound contains it. */
  function TrialFor(trials: seq<TrialRow>, peptide: string): (r: Option<TrialRow>)
    ensures r.None? <==> forall j :: 0 <= j < |trials| ==> !TrialMatches(peptide, trials[j])
    ensures r.Some? ==> exists j :: (0 <= j < |trials| && trials[j] == r.value &&
      TrialMatches(peptide, trials[j]) && forall k :: 0 <= k < j ==> !TrialMatches(peptide, trials[k]))
  {
    match FindFirst(trials, (t: TrialRow) => TrialMatches(peptide, t))
    case None => None
    case Some(j) => Some(trials[j])
  }

  /** The body of `getProtocol` past its guard, over the two tables. */
  function Resolve(symptoms: seq<SymptomRow>, trials: seq<TrialRow>, marker: string): (r: Option<ProtocolMatch>)
    ensures r.None? <==> forall i :: 0 <= i < |symptoms| ==> !SymptomMatches(Normalize(marker), symptoms[i])
  {
    var target := Normalize(marker);
    match FindFirst(symptoms, (s: SymptomRow) => SymptomMatches(target, s))
    case None => None
    case Some(i) => Some(Assemble(symptoms[i], TrialFor(trials, symptoms[i].peptide)))
  }

  /**
   * The protocol for a marker whose first matching symptom row is `symptoms[i]`:
   * its condition, peptide, mechanism and lifestyle lever are copied, and the
   * rest comes from the first trial row for its peptide, or from the defaults.
   */
  lemma ResolveFromFirstMatch(symptoms: seq<SymptomRow>, trials: seq<TrialRow>, marker: string, i: nat)
    requires i < |symptoms| && SymptomMatches(Normalize(marker), symptoms[i])
    requires forall k :: 0 <= k < i ==> !SymptomMatches(Normalize(marker), symptoms[k])
    ensures Resolve(symptoms, trials, marker) == Some(Assemble(symptoms[i], TrialFor(trials, symptoms[i].peptide)))
  {
    FirstIsUnique(symptoms, (s: SymptomRow) => SymptomMatches(Normalize(marker), s), i);
  }

  /** The fields that always come from the matched symptom row. */
  lemma SymptomFieldsCopied(m: SymptomRow, trial: Option<TrialRow>)
    ensures var p := Assemble(m, trial);
      p.condition == m.condition && p.peptide == m.peptide && p.mechanism == m.mechanism &&
      p.lifestyle == m.lifestyleLever
  {
  }

  /** With a trial row: its dose, route, cautions and URL; its schedule twice; the trial tag. */
  lemma TrialFieldsUsed(m: SymptomRow, t: TrialRow)
    ensures Assemble(m, Some(t)).dosing == Some(Dosing(t.dose, t.schedule, t.route, t.schedule))
    ensures Assemble(m, Some(t)).safety == Some(Safety(t.cautions, t.url))
    ensures Assemble(m, Some(t)).source == TrialTag
  {
  }

  /** Without a trial row every other field takes its literal default. */
  lemma DefaultsWithoutTrial(m: SymptomRow)
    ensures Assemble(m, None).dosing ==
      Some(Dosing("Dose varies by indication.", "As directed by clinician.", "SC/Oral", "See protocol"))
    ensures Assemble(m, None).safety == Some(Safety("Consult a physician before use. Research compound.", ""))
    ensures Assemble(m, None).source == GeneralTag
  {
  }

  /** A marker that normalises to nothing matches the first symptom row. */
  lemma EmptyLabelMatchesFirstRow(symptoms: seq<SymptomRow>, trials: seq<TrialRow>, marker: string)
    requires Normalize(marker) == [] && symptoms != []
    ensures Resolve(symptoms, trials, marker) == Some(Assemble(symptoms[0], TrialFor(trials, symptoms[0].peptide)))
  {
    ContainsEmpty(Normalize(symptoms[0].biomarker));
    ResolveFromFirstMatch(symptoms, trials, marker, 0);
  }

  /**
   * A compound whose normal form is shorter than the peptide's never matches
   * it, even when the peptide's name contains it: the trial test is one-way.
   */
  lemma ShorterCompoundNeverMatches(peptide: string, t: TrialRow)
    requires |Normalize(t.compound)| < |Normalize(peptide)|
    ensures !TrialMatches(peptide, t)
  {
    if TrialMatches(peptide, t) {
      ContainsNoLonger(Normalize(t.compound), Normalize(peptide));
    }
  }

  /** Labels with the same normal form get the same protocol. */
  lemma SameNormalFormSameProtocol(symptoms: seq<SymptomRow>, trials: seq<TrialRow>, a: string, b: string)
    requires Normalize(a) == Normalize(b)
    ensures Resolve(symptoms, trials, a) == Resolve(symptoms, trials, b)
  {
  }

  /** Case does not matter to the lookup. */
  lemma CaseInsensitive(symptoms: seq<SymptomRow>, trials: seq<TrialRow>, marker: string)
    ensures Resolve(symptoms, trials, Lower(marker)) == Resolve(symptoms, trials, marker)
  {
    NormalizeIgnoresCase(marker);
  }

  /** Punctuation does not matter to the lookup: deleting a stripped character changes nothing. */
  lemma PunctuationInsensitive(symptoms: seq<SymptomRow>, trials: seq<TrialRow>, marker: string, i: nat)
    requires i < |marker| && !IsKeyChar(LowerChar(marker[i]))
    ensures Resolve(symptoms, trials, marker[..i] + marker[i + 1..]) == Resolve(symptoms, trials, marker)
  {
    NormalizeIgnoresPunctuation(marker, i);
  }

  /** The engine's protocols always show dosing unless the trial row's dose is "N/A". */
  lemma EngineDosingShown(m: SymptomRow, trial: Option<TrialRow>)
    ensures ShowsDosing(Assemble(m, trial)) <==> trial.None? || trial.value.dose != "N/A"
  {
  }

  /** The engine object: the two tables and whether both were loaded. */
  class Engine {
    var symptomMap: seq<SymptomRow>
    var trials: seq<TrialRow>
    var initialized: bool

    constructor()
      ensures symptomMap == [] && trials == [] && !initialized
    {
      symptomMap := [];
      trials := [];
      initialized := false;
    }

    /**
     * `init`, with each file load given as its outcome: `None` stands for a
     * read that throws. A failed symptom load changes nothing; a failed trial
     * load keeps the new symptom table but leaves the engine uninitialised.
     */
    method Init(symptomLoad: Option<seq<SymptomRow>>, trialLoad: Option<seq<TrialRow>>)
      modifies this
      ensures old(initialized) ==> initialized && symptomMap == old(symptomMap) && trials == old(trials)
      ensures !old(initialized) ==>
        symptomMap == (if symptomLoad.Some? then symptomLoad.value else old(symptomMap)) &&
        trials == (if symptomLoad.Some? && trialLoad.Some? then trialLoad.value else old(trials)) &&
        initialized == (symptomLoad.Some? && trialLoad.Some?)
    {
      if initialized {
        return;
      }
      if symptomLoad.None? {
        return;
      }
      symptomMap := symptomLoad.value;
      if trialLoad.None? {
        return;
      }
      trials := trialLoad.value;
      initialized := true;
    }

    /** `getProtocol`: nothing before a successful `init`; otherwise the lookup over the tables. */
    function GetProtocol(marker: string): (r: Option<ProtocolMatch>)
      reads this
      ensures !initialized ==> r.None?
      ensures r.Some? ==> exists i :: 0 <= i < |symptomMap| && SymptomMatches(Normalize(marker), symptomMap[i])
      ensures initialized && r.None? ==> forall i :: 0 <= i < |symptomMap| ==> !SymptomMatches(Normalize(marker), symptomMap[i])
    {
      if !initialized then None else Resolve(symptomMap, trials, marker)
    }
  }
}
