# EHR compliance check and action step

A Dafny model of the deterministic core of the Healthcare Agentic AI demo (`app.py`):
the compliance validator `compliance_check`, which inspects a simulated FHIR-style
patient record and reports violations, the action step `act_on_violations`, which
turns that report into either a no-action message or a nurse alert, and the "Act"
tool that composes the two. The hardcoded demo record of `fetch_patient_data` is a
constant.

- `patient.dfy` (module `Patient`): the parsed record as a datatype whose fields are
  all optional (a missing JSON key is `None`), Python's falsy test on `dob`
  (`HasDob`: absent or `""` counts as missing), `patient.get("medications", [])`
  (`MedicationsOrEmpty`) and the demo record.
- `text.dfy` (module `Text`): the two Python string operations the code uses,
  `", ".join(...)` (`Join`) and the substring test `phrase in text` (`Contains`),
  with the lemmas about them that the compliance proofs need.
- `compliance.dfy` (module `Compliance`): the exact labels and result strings
  (emoji prefixes kept as the code points the source uses: U+2705, U+26A0 U+FE0F,
  U+1F6A8), the ordered violation list, the rendered check result, the imperative
  `ComplianceCheck` that appends to a growing list as the source does, the action
  step and the composed "Act" tool.

The central fact is the composition: the action step answers "no action" exactly
when the record has a non-empty date of birth and does not list Lisinopril. It holds
because neither violation label, the separator nor the "Violations Found" prefix
contains a capital N, so the phrase "No compliance violations" can only appear in
the compliant result.

## Model

| member | source | states |
|---|---|---|
| Compliance.Violations | app.py:54-60 | The date-of-birth label is present iff `dob` is missing or empty; the Lisinopril label is present iff "Lisinopril" is among the medications (missing key = empty list); no other label ever appears, so no other drug causes one; the date-of-birth label comes before the medication label; at most two entries; empty iff the record is compliant |
| Compliance.CheckResult | app.py:52-64 | The check result is exactly "✅ No compliance violations." for a compliant record, otherwise "⚠️ Violations Found: " followed by the date-of-birth label, the medication label, or both joined by ", ", one exact string for each of the four outcomes |
| Compliance.ComplianceCheck | app.py:52-64 | The imperative check that appends each violation to a list and then renders it returns exactly the result `CheckResult` describes |
| Compliance.ActOnViolations | app.py:66-69 | Returns "✅ No action required. All records are safe." iff the input contains "No compliance violations"; otherwise the result is "🚨 ALERT: Nurse notified about -> " followed by the input verbatim |
| Compliance.ActIgnoresPatient | app.py:66-69 | The record argument of the action step has no influence on its result |
| Compliance.CheckResultMentionsCompliance | app.py:56-69 | The check result contains "No compliance violations" iff the record has a non-empty date of birth and no Lisinopril |
| Compliance.NoViolationsResultMentions | app.py:63 | The compliant result string contains the phrase the action step looks for |
| Compliance.NoCapitalN | app.py:57-64 | The phrase the action step looks for starts with N, which occurs in neither label, the separator nor the "Violations Found" prefix |
| Compliance.ActTool | app.py:86-90 | The composed "Act" tool yields the no-action message iff the record is compliant, and otherwise an alert carrying the check result verbatim |
| Compliance.MissingMedicationsIsEmpty | app.py:59 | A record without a `medications` key gets the same check result as one with an empty list |
| Compliance.OtherDrugsIgnored | app.py:59-60 | Adding any medications other than Lisinopril leaves the violation list unchanged |
| Compliance.DemoCycle | app.py:36-69 | On the hardcoded record the check yields exactly "⚠️ Violations Found: Medication review needed: Lisinopril" and the action step an alert embedding it |
| Text.JoinPair | app.py:64 | Joining two labels puts the separator between them exactly once |
| Text.JoinAvoids | app.py:64 | A character absent from the separator and from every part is absent from their join |
| Text.AbsentFirstChar | app.py:67 | A text lacking the first character of a non-empty phrase does not contain the phrase |
| Text.FoundAt | app.py:67 | A phrase occurring at some offset is contained in the text |

## Left out

- The Streamlit page (configuration, API-key prompt, `st.stop`, the three demo branches and their rendering): user-interface plumbing with no contract.
- ChatOpenAI, the conversation memory, the LangChain tools and agent, and `agent.run`: calls into external libraries and a remote model whose behaviour is not visible here. Only the composition the "Act" tool's function performs is modelled (`ActTool`).
- Writing the API key into the process environment: not logic.
- `json.dumps` and `json.loads`: the record is modelled directly as a datatype, so the JSON round trip between `fetch_patient_data` and `compliance_check` is not modelled.
- Falsy `dob` values that are not strings (`0`, `False`, `[]`) and a `medications` value that is not a list (a JSON null raises a TypeError in the source; a string would turn the Lisinopril test into a substring test): the model fixes `dob` as an optional string and `medications` as an optional list of strings.
- The blood-pressure risk rule and the free-text keyword classifier of the other demo variants: they do not occur in `app.py`.
