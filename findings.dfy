/** The record the analysis capability reports, one per issue found in one file (deps/deps.py). */
module Findings {
  import opened Wrappers

  /** `Finding.severity` is one of exactly two strings. */
  datatype Severity = Critical | Warning

  /** The string the source stores in `Finding.severity`. */
  function SeverityName(s: Severity): (r: string)
    ensures r == "CRITICAL" || r == "WARNING"
    ensures (r == "CRITICAL") <==> s == Critical
  {
    match s
    case Critical => "CRITICAL"
    case Warning => "WARNING"
  }

  /** `Finding`: `recommendation` and `line_hint` are optional. */
  datatype Finding = Finding(
    filePath: string,
    issue: string,
    severity: Severity,
    explanation: string,
    recommendation: Option<string>,
    lineHint: Option<int>)
}
