/** Outcomes of a check and how they become statuses: models/result.py, checks/baseline.py and
checks/deactivation.py. */
module Outcomes {
  import opened Wrappers

  datatype Outcome = Ok | Info | Recovered | Unchanged | Degraded | Broken | Skip

  datatype Severity = Critical | Advisory

  datatype Status = PASS | RECV | SKIP | WARN | FAIL | INFO

  function Rank(s: Status): int {
    match s case INFO => -1 case PASS => 0 case RECV => 1 case SKIP => 2 case WARN => 3 case FAIL => 4
  }

  function DeriveStatus(o: Outcome, severity: Severity): Status {
    match o
    case Ok => PASS
    case Unchanged => PASS
    case Info => INFO
    case Recovered => RECV
    case Skip => SKIP
    case Degraded => WARN
    case Broken => if severity.Critical? then FAIL else WARN
  }

  /** The one gate to Unchanged: `measured` says that the baseline measured the area. */
  function UnchangedOr(o: Outcome, measured: bool, same: bool): Outcome {
    if o !in {Broken, Degraded} then o else if same && measured then Unchanged else o
  }

  /** None means that no row is reported.  `baselineOff` is None when there is nothing to compare. */
  function DeactivationOutcome(subjectOff: bool, baselineOff: Option<bool>): Option<Outcome> {
    if !subjectOff && baselineOff != Some(true) then None
    else if subjectOff && baselineOff == Some(false) then Some(Broken)
    else Some(Degraded)
  }

  /** Status.worst. */
  function Worst(statuses: seq<Status>): Status {
    if statuses == [] then SKIP else Max(statuses)
  }

  function Max(statuses: seq<Status>): Status
    requires statuses != []
  {
    var last := statuses[|statuses| - 1];
    if |statuses| == 1 then last
    else
      var before := Max(statuses[..|statuses| - 1]);
      if Rank(last) > Rank(before) then last else before
  }
}
