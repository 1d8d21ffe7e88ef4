/** The compliance validator (`compliance_check`), its action step (`act_on_violations`)
    and the composition the "Act" tool wires up. */
module Compliance {
  import opened Patient
  import opened Text

  const MissingDobLabel: string := "Missing Date of Birth"
  /** The one drug on the watch-list. */
  const WatchedDrug: string := "Lisinopril"
  const MedicationReviewLabel: string := "Medication review needed: Lisinopril"
  const Separator: string := ", "
  const NoViolationsResult: string := "\U{2705} No compliance violations."
  const ViolationsPrefix: string := "\U{26A0}\U{FE0F} Violations Found: "
  /** The phrase `act_on_violations` looks for. */
  const CompliantPhrase: string := "No compliance violations"
  const NoActionResult: string := "\U{2705} No action required. All records are safe."
  const AlertPrefix: string := "\U{1F6A8} ALERT: Nurse notified about -> "

  predicate TakesWatchedDrug(p: PatientRecord)
  {
    WatchedDrug in MedicationsOrEmpty(p)
  }

  /** The violation labels `compliance_check` collects, in the order it collects them. */
  function Violations(p: PatientRecord): (v: seq<string>)
    ensures MissingDobLabel in v <==> !HasDob(p)
    ensures MedicationReviewLabel in v <==> TakesWatchedDrug(p)
    ensures forall k :: 0 <= k < |v| ==> v[k] == MissingDobLabel || v[k] == MedicationReviewLabel
    ensures forall i, j :: 0 <= i < j < |v| ==> v[i] == MissingDobLabel && v[j] == MedicationReviewLabel
    ensures |v| <= 2
    ensures v == [] <==> HasDob(p) && !TakesWatchedDrug(p)
  {
    (if HasDob(p) then [] else [MissingDobLabel])
    + (if TakesWatchedDrug(p) then [MedicationReviewLabel] else [])
  }

  /** The string `compliance_check` returns, one exact value for each of the four outcomes. */
  function CheckResult(p: PatientRecord): (r: string)
    ensures HasDob(p) && !TakesWatchedDrug(p) ==> r == NoViolationsResult
    ensures !HasDob(p) && !TakesWatchedDrug(p) ==> r == ViolationsPrefix + MissingDobLabel
    ensures HasDob(p) && TakesWatchedDrug(p) ==> r == ViolationsPrefix + MedicationReviewLabel
    ensures !HasDob(p) && TakesWatchedDrug(p) ==>
              r == ViolationsPrefix + MissingDobLabel + Separator + MedicationReviewLabel
  {
    var v := Violations(p);
    if |v| == 0 then NoViolationsResult
    else
      JoinPair(MissingDobLabel, MedicationReviewLabel, Separator);
      ViolationsPrefix + Join(v, Separator)
  }

  /** `compliance_check`: appends each violation found to a growing list, then renders it. */
  method ComplianceCheck(patient: PatientRecord) returns (result: string)
    ensures result == CheckResult(patient)
  {
    var violations: seq<string> := [];
    if !HasDob(patient) {
      violations := violations + [MissingDobLabel];
    }
    if WatchedDrug in MedicationsOrEmpty(patient) {
      violations := violations + [MedicationReviewLabel];
    }
    assert violations == Violations(patient);
    if |violations| == 0 {
      return NoViolationsResult;
    }
    result := ViolationsPrefix + Join(violations, Separator);
  }

  /** `act_on_violations`: no action exactly when the phrase occurs in the check result;
      otherwise an alert that carries the check result verbatim after a fixed prefix. */
  function ActOnViolations(patient: PatientRecord, violations: string): (r: string)
    ensures r == NoActionResult <==> Contains(violations, CompliantPhrase)
    ensures r != NoActionResult ==>
              |r| == |AlertPrefix| + |violations| &&
              r[..|AlertPrefix|] == AlertPrefix && r[|AlertPrefix|..] == violations
  {
    if Contains(violations, CompliantPhrase) then NoActionResult
    else
      assert (AlertPrefix + violations)[0] != NoActionResult[0];
      AlertPrefix + violations
  }

  /** The record argument of `act_on_violations` plays no part in its result. */
  lemma ActIgnoresPatient(p: PatientRecord, q: PatientRecord, violations: string)
    ensures ActOnViolations(p, violations) == ActOnViolations(q, violations)
  {
  }

  /** The check result contains the phrase `act_on_violations` looks for exactly when
      the record is compliant: no label, prefix or separator has a capital N. */
  lemma {:induction false} CheckResultMentionsCompliance(p: PatientRecord)
    ensures Contains(CheckResult(p), CompliantPhrase) <==> HasDob(p) && !TakesWatchedDrug(p)
  {
    var v := Violations(p);
    if v == [] {
      NoViolationsResultMentions();
    } else {
      NoCapitalN();
      JoinAvoids(v, Separator, 'N');
      AbsentFirstChar(CheckResult(p), CompliantPhrase);
    }
  }

  /** The compliant result carries the phrase, right after the check mark and a space. */
  lemma NoViolationsResultMentions()
    ensures Contains(NoViolationsResult, CompliantPhrase)
  {
    assert NoViolationsResult == "\U{2705} " + CompliantPhrase + ".";
    FoundAt(NoViolationsResult, CompliantPhrase, 2);
  }

  /** The phrase starts with a capital N, which no other piece of a check result contains. */
  lemma NoCapitalN()
    ensures CompliantPhrase[0] == 'N'
    ensures 'N' !in MissingDobLabel && 'N' !in MedicationReviewLabel
    ensures 'N' !in Separator && 'N' !in ViolationsPrefix
  {
  }

  /** The "Act" tool: runs the check on the record and acts on its result. */
  method ActTool(data: PatientRecord) returns (r: string)
    ensures r == NoActionResult <==> HasDob(data) && !TakesWatchedDrug(data)
    ensures r != NoActionResult ==> r == AlertPrefix + CheckResult(data)
  {
    var checked := ComplianceCheck(data);
    CheckResultMentionsCompliance(data);
    r := ActOnViolations(data, checked);
  }

  /** A missing `medications` key behaves as an empty list. */
  lemma MissingMedicationsIsEmpty(p: PatientRecord)
    ensures CheckResult(p.(medications := None)) == CheckResult(p.(medications := Some([])))
  {
  }

  /** Drugs other than the watched one never add a violation. */
  lemma OtherDrugsIgnored(p: PatientRecord, extra: seq<string>)
    requires WatchedDrug !in extra
    ensures Violations(p.(medications := Some(MedicationsOrEmpty(p) + extra))) == Violations(p)
  {
  }

  /** The full cycle on the hardcoded record: one medication finding, then an alert. */
  lemma DemoCycle()
    ensures CheckResult(DemoPatient) == ViolationsPrefix + MedicationReviewLabel
    ensures ActOnViolations(DemoPatient, CheckResult(DemoPatient))
              == AlertPrefix + ViolationsPrefix + MedicationReviewLabel
  {
    assert HasDob(DemoPatient) && TakesWatchedDrug(DemoPatient);
    CheckResultMentionsCompliance(DemoPatient);
  }
}
