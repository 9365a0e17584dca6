/** The protocol record the engine returns and the biomarker card displays. */
module Protocol {
  import opened Options

  datatype Dosing = Dosing(dose: string, frequency: string, route: string, duration: string)

  datatype Safety = Safety(cautions: string, source: string)

  /** `ProtocolMatch`; the optional fields are `Option`s. */
  datatype ProtocolMatch = ProtocolMatch(
    condition: string, peptide: string, mechanism: string, lifestyle: Option<string>,
    dosing: Option<Dosing>, safety: Option<Safety>, source: string)

  /** The card shows the dosing block only for a dose other than "N/A". */
  predicate ShowsDosing(p: ProtocolMatch) {
    p.dosing.Some? && p.dosing.value.dose != "N/A"
  }
}
