/** The simulated EHR patient record that app.py serialises to JSON and parses back. */
module Patient {

  datatype Option<T> = None | Some(value: T)

  /** A parsed patient record. Every key of the JSON object may be absent, so every
      field is optional; `None` stands for a missing key (or a JSON null). */
  datatype PatientRecord = PatientRecord(
    id: Option<string>,
    name: Option<string>,
    dob: Option<string>,
    diagnosis: Option<string>,
    medications: Option<seq<string>>,
    lastUpdate: Option<string>)

  /** `patient.get("dob")` is truthy: the key is present and the string is not empty. */
  predicate HasDob(p: PatientRecord)
  {
    match p.dob
    case None => false
    case Some(d) => d != ""
  }

  /** `patient.get("medications", [])`: a missing key reads as the empty list. */
  function MedicationsOrEmpty(p: PatientRecord): seq<string>
  {
    match p.medications
    case None => []
    case Some(m) => m
  }

  /** The hardcoded record `fetch_patient_data` returns. */
  const DemoPatient: PatientRecord := PatientRecord(
    id := Some("P12345"),
    name := Some("John Doe"),
    dob := Some("1980-01-01"),
    diagnosis := Some("Hypertension"),
    medications := Some(["Lisinopril"]),
    lastUpdate := Some("2025-09-22"))
}
