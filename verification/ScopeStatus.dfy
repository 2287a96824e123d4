/** The status of a scope, told from its checks and what they found: run_check of checks/base.py and the
statuses of models/result.py. */
module ScopeStatus {
  import opened Wrappers
  import opened Seqs
  import opened Outcomes
  import opened Accounting

  /** What a finding's outcome means at a severity. */
  predicate Means(o: Outcome, severity: Severity, s: Status) {
    match s
    case FAIL => o.Broken? && severity.Critical?
    case WARN => o.Degraded? || (o.Broken? && severity.Advisory?)
    case RECV => o.Recovered?
    case PASS => o.Ok? || o.Unchanged?
    case INFO => o.Info?
    case SKIP => o.Skip?
  }

  predicate Asked(c: Check) {
    c.enabled && c.applies
  }

  /** Nothing keeps the check from running, and it does not raise. */
  predicate Ran(c: Check, x: Situation) {
    && Asked(c) && (c.compareOnly ==> x.hasBaseline) && (x.deactivated ==> c.reportsDeactivation)
    && c.areas !! x.failed && c.findings.Some?
  }

  lemma MeansIs(o: Outcome, severity: Severity, s: Status)
    ensures DeriveStatus(o, severity) == s <==> Means(o, severity, s)
  {}

  lemma NothingShared(a: set<string>, b: set<string>)
    ensures a !! b <==> a * b == {}
  {
    if a * b == {} {
      forall e ensures !(e in a && e in b) {
        assert e !in a * b;
      }
    }
  }

  /** One row for each finding of a check that ran, marked exactly when it is as in the baseline; one SKIP
      for a check that was kept from running; none for one that is off or does not apply. */
  lemma RowsOfCheck(c: Check, x: Situation)
    ensures
      var rows := RunCheck(c, x);
      if Ran(c, x) then
        && |rows| == |c.findings.value|
        && forall i | 0 <= i < |rows| ::
             && Means(c.findings.value[i], c.severity, rows[i].status)
             && (rows[i].asBefore <==> c.findings.value[i].Unchanged?)
      else if Asked(c) then |rows| == 1 && rows[0].status == Status.SKIP && !rows[0].asBefore
      else rows == []
  {
    NothingShared(c.areas, x.failed);
    if Ran(c, x) {
      forall o, s { MeansIs(o, c.severity, s); }
    }
  }

  /** Some check that ran found this. */
  ghost predicate Found(checks: seq<Check>, x: Situation, s: Status) {
    exists c, o | c in checks && Ran(c, x) && o in c.findings.value :: Means(o, c.severity, s)
  }

  lemma CheckFound(c: Check, x: Situation, s: Status)
    requires s != Status.SKIP
    ensures s in Statuses(RunCheck(c, x)) <==> Ran(c, x) && exists o | o in c.findings.value :: Means(o, c.severity, s)
  {
    RowsOfCheck(c, x);
    var rows := RunCheck(c, x);
    if s in Statuses(rows) {
      var r :| r in rows && r.status == s;
      var i :| 0 <= i < |rows| && rows[i] == r;
      if Ran(c, x) {
        assert c.findings.value[i] in c.findings.value;
      }
    }
    if Ran(c, x) {
      forall o | o in c.findings.value && Means(o, c.severity, s) ensures s in Statuses(rows) {
        var i :| 0 <= i < |c.findings.value| && c.findings.value[i] == o;
        assert rows[i] in rows && rows[i].status == s by {
          MeansIs(o, c.severity, s);
          MeansIs(o, c.severity, rows[i].status);
        }
      }
    }
  }

  lemma {:induction false} RunFound(checks: seq<Check>, x: Situation, s: Status)
    requires s != Status.SKIP
    ensures s in Statuses(RunChecks(checks, x)) <==> Found(checks, x, s)
  {
    if checks != [] {
      var before, c := checks[..|checks| - 1], checks[|checks| - 1];
      RunFound(before, x, s);
      CheckFound(c, x, s);
      MapConcat(RunChecks(before, x), RunCheck(c, x), (r: Row) => r.status);
      assert checks == before + [c];
    }
  }

  lemma ReportedAre(rows: seq<Row>, s: Status)
    ensures s in Reported(rows) <==> s in Statuses(rows) && s != Status.SKIP
  {
    FilterMembers(Statuses(rows), (s: Status) => s != Status.SKIP);
  }

  /** The first of the list that is among the statuses, SKIP when none is. */
  lemma WorstByCases(rows: seq<Row>)
    ensures
      var all, s := Statuses(rows), ScopeStatus(rows);
      s == if FAIL in all then FAIL else if WARN in all then WARN else if RECV in all then RECV
           else if PASS in all then PASS else if INFO in all then INFO else Status.SKIP
  {
    forall s { ReportedAre(rows, s); }
    if Reported(rows) != [] {
      MaxIsWorst(Reported(rows));
    }
    if Reported(rows) == [] {
      assert forall s :: s !in Reported(rows);
    }
  }

  /** Main theorem: a scope fails exactly when some check that ran reports something broken at critical
      severity, warns when none does but one reports something degraded, or broken at advisory severity,
      and so on; it is SKIP when no check that ran reports anything but SKIP. */
  lemma StatusExactly(checks: seq<Check>, x: Situation)
    ensures
      var s := ScopeStatus(RunChecks(checks, x));
      s == if Found(checks, x, FAIL) then FAIL else if Found(checks, x, WARN) then WARN else if Found(checks, x, RECV) then RECV
           else if Found(checks, x, PASS) then PASS else if Found(checks, x, INFO) then INFO else Status.SKIP
  {
    WorstByCases(RunChecks(checks, x));
    RunFound(checks, x, FAIL);
    RunFound(checks, x, WARN);
    RunFound(checks, x, RECV);
    RunFound(checks, x, PASS);
    RunFound(checks, x, INFO);
  }
}
