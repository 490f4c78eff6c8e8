/** Enumerations shared by findings and policies (src/core/types.ts). */
module CoreTypes {

  datatype Severity = Info | Low | Medium | High | Critical

  function SeverityRank(s: Severity): int {
    match s case Info => 0 case Low => 1 case Medium => 2 case High => 3 case Critical => 4
  }

  datatype Decision = PASS | WARN | FAIL

  function DecisionRank(d: Decision): int {
    match d case PASS => 0 case WARN => 1 case FAIL => 2
  }

  datatype PolicyLevel = Organization | Tenant | Project | Repository | Service

  /** The index in LEVELS; higher levels come first. */
  function LevelRank(l: PolicyLevel): int {
    match l case Organization => 0 case Tenant => 1 case Project => 2 case Repository => 3 case Service => 4
  }

  datatype PolicyField = FailOn | WarnOn | RequiredScanners | ScannerFailureModes

  datatype FailureMode = Fail | Warn | Ignore
}
