/** Where every subject scope goes and what the summary counts: evaluate_snapshots of engine.py, the
gates of run_check in checks/base.py and the counters of models/result.py. */
module Accounting {
  import opened Wrappers
  import opened Seqs
  import opened Outcomes
  import ReportOrder

  // ----- Scopes -----

  datatype Kind = Layer1 | Service

  datatype Scope = Scope(id: string, kind: Kind, serviceType: string)

  /** A subject scope without a partner; `newService` is its reason. */
  datatype Unmatched = Unmatched(scope: Scope, newService: bool)

  /** The matcher's result, as far as the subject is concerned. */
  datatype Matches = Matches(pairs: seq<Scope>, unmatched: seq<Unmatched>)

  /** `types` is the profile's filter, `peer` the L3 scope that an L2 scope is linked to. */
  datatype Settings = Settings(types: Option<set<string>>, step: bool, peer: map<string, string>)

  /** The scopes with results, those of other migration steps, those listed as unmatched, and how
      many the profile skipped. */
  datatype Ledger = Ledger(shown: seq<Scope>, excluded: seq<Scope>, listed: seq<Scope>, skipped: nat)

  predicate InProfile(t: Settings, s: Scope) {
    t.types.None? || s.kind.Layer1? || s.serviceType in t.types.value
  }

  function MatchedIds(m: Matches): set<string> {
    set s | s in m.pairs :: s.id
  }

  /** Belongs to another step of the migration. */
  predicate OtherStep(t: Settings, matched: set<string>, u: Unmatched) {
    t.step && u.scope.kind.Service? && u.newService &&
    !(u.scope.id in t.peer && t.peer[u.scope.id] in matched)
  }

  function Wanted(t: Settings): Scope -> bool {
    (s: Scope) => InProfile(t, s)
  }

  function Unwanted(t: Settings): Scope -> bool {
    (s: Scope) => !InProfile(t, s)
  }

  function Elsewhere(t: Settings, matched: set<string>): Unmatched -> bool {
    (u: Unmatched) => OtherStep(t, matched, u)
  }

  function ScopesOf(us: seq<Unmatched>): seq<Scope> {
    if us == [] then [] else ScopesOf(us[..|us| - 1]) + [us[|us| - 1].scope]
  }

  /** The scopes for which `other` gives `answer`. */
  function Routed(us: seq<Unmatched>, other: Unmatched -> bool, answer: bool): seq<Scope> {
    if us == [] then []
    else
      var before, u := Routed(us[..|us| - 1], other, answer), us[|us| - 1];
      if other(u) == answer then before + [u.scope] else before
  }

  function OfKind(kind: Kind): Scope -> bool {
    (s: Scope) => s.kind == kind
  }

  /** The matched and unmatched scopes of this step, in the order of the loops. */
  function Candidates(t: Settings, m: Matches): seq<Scope> {
    m.pairs + Routed(m.unmatched, Elsewhere(t, MatchedIds(m)), false)
  }

  /** The books of one evaluation; `matches` is None without a baseline. */
  function Books(t: Settings, scopes: seq<Scope>, matches: Option<Matches>): Ledger {
    match matches
    case None => Ledger(Filter(scopes, Wanted(t)), [], [], |Filter(scopes, Unwanted(t))|)
    case Some(m) =>
      Ledger(Filter(Candidates(t, m), Wanted(t)) + Filter(scopes, OfKind(Layer1)),
             Routed(m.unmatched, Elsewhere(t, MatchedIds(m)), true),
             Routed(m.unmatched, Elsewhere(t, MatchedIds(m)), false),
             |Filter(Candidates(t, m), Unwanted(t))|)
  }

  method Evaluate(t: Settings, scopes: seq<Scope>, matches: Option<Matches>) returns (r: Ledger)
    ensures r == Books(t, scopes, matches)
  {
    if matches.None? {
      var shown, skipped := Sift(t, scopes);
      return Ledger(shown, [], [], skipped);
    }
    var m := matches.value;
    var excluded, listed := Route(t, MatchedIds(m), m.unmatched);
    var shown, skipped := Sift(t, m.pairs + listed);
    r := Ledger(shown + Filter(scopes, OfKind(Layer1)), excluded, listed, skipped);
  }

  /** Unmatched scopes of another step, and the others. */
  method Route(t: Settings, matched: set<string>, unmatched: seq<Unmatched>) returns (excluded: seq<Scope>, listed: seq<Scope>)
    ensures excluded == Routed(unmatched, Elsewhere(t, matched), true)
    ensures listed == Routed(unmatched, Elsewhere(t, matched), false)
  {
    excluded, listed := [], [];
    for i := 0 to |unmatched|
      invariant excluded == Routed(unmatched[..i], Elsewhere(t, matched), true)
      invariant listed == Routed(unmatched[..i], Elsewhere(t, matched), false)
    {
      assert unmatched[..i + 1][..i] == unmatched[..i];
      if OtherStep(t, matched, unmatched[i]) {
        excluded := excluded + [unmatched[i].scope];
        continue;
      }
      listed := listed + [unmatched[i].scope];
    }
    assert unmatched[..|unmatched|] == unmatched;
  }

  /** The scopes the profile keeps, and the number of the others. */
  method Sift(t: Settings, scopes: seq<Scope>) returns (shown: seq<Scope>, skipped: nat)
    ensures shown == Filter(scopes, Wanted(t)) && skipped == |Filter(scopes, Unwanted(t))|
  {
    shown, skipped := [], 0;
    for i := 0 to |scopes|
      invariant shown == Filter(scopes[..i], Wanted(t)) && skipped == |Filter(scopes[..i], Unwanted(t))|
    {
      FilterStep(scopes, i, Wanted(t));
      FilterStep(scopes, i, Unwanted(t));
      if !InProfile(t, scopes[i]) {
        skipped := skipped + 1;
        continue;
      }
      shown := shown + [scopes[i]];
    }
    assert scopes[..|scopes|] == scopes;
  }

  // ----- Every subject scope is accounted for -----

  lemma {:induction false} RoutedSplits(us: seq<Unmatched>, other: Unmatched -> bool)
    ensures multiset(Routed(us, other, true)) + multiset(Routed(us, other, false)) == multiset(ScopesOf(us))
  {
    if us != [] {
      var rest, x := us[..|us| - 1], us[|us| - 1].scope;
      RoutedSplits(rest, other);
      Snoc(Routed(rest, other, true), x);
      Snoc(Routed(rest, other, false), x);
      Snoc(ScopesOf(rest), x);
    }
  }

  /** The matcher's contract: every service is in a pair, or unmatched, or ignored by the mapping. */
  ghost predicate Partitions(m: Matches, services: seq<Scope>, ignored: seq<Scope>) {
    multiset(m.pairs) + multiset(ScopesOf(m.unmatched)) + multiset(ignored) == multiset(services)
  }

  /** The scopes behind the number of skipped ones. */
  function Skipped(t: Settings, scopes: seq<Scope>, matches: Option<Matches>): seq<Scope> {
    Filter(if matches.None? then scopes else Candidates(t, matches.value), Unwanted(t))
  }

  /** Main theorem: in every mode, with or without a baseline, a profile or a step, each subject scope
      is shown, or skipped by the profile, or excluded as belonging to another step, or was ignored
      by the mapping, and just one of these; every unmatched one is listed or excluded. */
  lemma EveryScopeIsAccounted(t: Settings, scopes: seq<Scope>, matches: Option<Matches>, ignored: seq<Scope>)
    requires if matches.None? then ignored == [] else Partitions(matches.value, Filter(scopes, OfKind(Service)), ignored)
    ensures
      var r, skipped := Books(t, scopes, matches), Skipped(t, scopes, matches);
      && r.skipped == |skipped|
      && multiset(r.shown) + multiset(skipped) + multiset(r.excluded) + multiset(ignored) == multiset(scopes)
      && |r.shown| + r.skipped + |r.excluded| + |ignored| == |scopes|
      && (if matches.Some? then multiset(r.listed) + multiset(r.excluded) == multiset(ScopesOf(matches.value.unmatched))
          else r.listed == r.excluded == [])
  {
    match matches {
      case None =>
        ProfileSplits(t, scopes);
        SameSize(Filter(scopes, Wanted(t)), Filter(scopes, Unwanted(t)), [], ignored, scopes);
      case Some(m) => BooksBalance(t, scopes, m, ignored);
    }
  }

  lemma ProfileSplits(t: Settings, scopes: seq<Scope>)
    ensures multiset(Filter(scopes, Wanted(t))) + multiset(Filter(scopes, Unwanted(t))) == multiset(scopes)
  {
    FilterSplit(scopes, Wanted(t), Unwanted(t));
  }

  lemma KindsSplit(scopes: seq<Scope>)
    ensures multiset(Filter(scopes, OfKind(Service))) + multiset(Filter(scopes, OfKind(Layer1))) == multiset(scopes)
  {
    FilterSplit(scopes, OfKind(Service), OfKind(Layer1));
  }

  lemma BooksBalance(t: Settings, scopes: seq<Scope>, m: Matches, ignored: seq<Scope>)
    requires Partitions(m, Filter(scopes, OfKind(Service)), ignored)
    ensures
      var r, skipped := Books(t, scopes, Some(m)), Filter(Candidates(t, m), Unwanted(t));
      && multiset(r.shown) + multiset(skipped) + multiset(r.excluded) + multiset(ignored) == multiset(scopes)
      && |r.shown| + |skipped| + |r.excluded| + |ignored| == |scopes|
      && multiset(r.listed) + multiset(r.excluded) == multiset(ScopesOf(m.unmatched))
  {
    var excluded := Routed(m.unmatched, Elsewhere(t, MatchedIds(m)), true);
    var listed := Routed(m.unmatched, Elsewhere(t, MatchedIds(m)), false);
    var wanted, skipped := Filter(m.pairs + listed, Wanted(t)), Filter(m.pairs + listed, Unwanted(t));
    var layer1 := Filter(scopes, OfKind(Layer1));
    ProfileSplits(t, m.pairs + listed);
    KindsSplit(scopes);
    RoutedSplits(m.unmatched, Elsewhere(t, MatchedIds(m)));
    Balance(wanted, skipped, layer1, excluded, listed, m.pairs, ScopesOf(m.unmatched), ignored, scopes, Filter(scopes, OfKind(Service)));
    SameSize(wanted + layer1, skipped, excluded, ignored, scopes);
  }

  lemma Balance(wanted: seq<Scope>, skipped: seq<Scope>, layer1: seq<Scope>, excluded: seq<Scope>, listed: seq<Scope>, pairs: seq<Scope>,
                unmatched: seq<Scope>, ignored: seq<Scope>, scopes: seq<Scope>, services: seq<Scope>)
    requires multiset(wanted) + multiset(skipped) == multiset(pairs + listed)
    requires multiset(services) + multiset(layer1) == multiset(scopes)
    requires multiset(excluded) + multiset(listed) == multiset(unmatched)
    requires multiset(pairs) + multiset(unmatched) + multiset(ignored) == multiset(services)
    ensures multiset(wanted + layer1) + multiset(skipped) + multiset(excluded) + multiset(ignored) == multiset(scopes)
  {
    var w, s, l, e, i := multiset(wanted), multiset(skipped), multiset(layer1), multiset(excluded), multiset(ignored);
    assert multiset(pairs + listed) == multiset(pairs) + multiset(listed);
    assert w + s + e + i == multiset(services);
    assert multiset(wanted + layer1) == w + l;
    assert w + l + s + e + i == (w + s + e + i) + l;
  }

  lemma SameSize(a: seq<Scope>, b: seq<Scope>, c: seq<Scope>, d: seq<Scope>, all: seq<Scope>)
    requires multiset(a) + multiset(b) + multiset(c) + multiset(d) == multiset(all)
    ensures |a| + |b| + |c| + |d| == |all|
  {
    assert multiset(a + b + c + d) == multiset(all);
    assert |multiset(a + b + c + d)| == |a + b + c + d| && |multiset(all)| == |all|;
  }

  /** The report shows as many scopes as the books, after its reordering. */
  lemma ReportShowsTheBooks(shown: seq<Scope>, results: seq<ReportOrder.Result>, ports: seq<string>)
    requires |results| == |shown| && ReportOrder.DistinctIds(results) && ReportOrder.NoChains(results) && ReportOrder.DistinctPorts(results)
    requires ReportOrder.PortList(ReportOrder.Reorder(results), ports)
    ensures forall p | p in ports :: p in ReportOrder.ByPort(ReportOrder.Layer1(ReportOrder.Reorder(results)))
    ensures |ReportOrder.Group(ReportOrder.Reorder(results), ports)| == |shown|
  {
    ReportOrder.ReportKeepsAllResults(results, ports);
    var grouped := ReportOrder.Group(ReportOrder.Reorder(results), ports);
    assert multiset(grouped) == multiset(results);
    assert |grouped| == |multiset(grouped)| && |results| == |multiset(results)|;
  }

  // ----- Rows and counters -----

  /** One row: its status, and the mark `unchanged_since_baseline`. */
  datatype Row = Row(status: Status, asBefore: bool)

  /** What run_check needs to know of a check; `findings` is None when it raises. */
  datatype Check = Check(enabled: bool, applies: bool, compareOnly: bool, reportsDeactivation: bool, areas: set<string>,
                         severity: Severity, findings: Option<seq<Outcome>>)

  datatype Situation = Situation(hasBaseline: bool, deactivated: bool, failed: set<string>)

  function RowOf(severity: Severity): Outcome -> Row {
    (o: Outcome) => Row(DeriveStatus(o, severity), o.Unchanged?)
  }

  /** A check is not run and reports one SKIP instead. */
  predicate Prevented(c: Check, x: Situation) {
    || (c.compareOnly && !x.hasBaseline)
    || (!c.reportsDeactivation && x.deactivated)
    || c.areas * x.failed != {}
    || c.findings.None?
  }

  function RunCheck(c: Check, x: Situation): seq<Row> {
    if !c.enabled || !c.applies then []
    else if Prevented(c, x) then [Row(SKIP, false)]
    else Map(c.findings.value, RowOf(c.severity))
  }

  function RunChecks(checks: seq<Check>, x: Situation): seq<Row> {
    if checks == [] then [] else RunChecks(checks[..|checks| - 1], x) + RunCheck(checks[|checks| - 1], x)
  }

  function Statuses(rows: seq<Row>): seq<Status> {
    Map(rows, (r: Row) => r.status)
  }

  function Unchangeds(rows: seq<Row>): nat {
    |Filter(rows, (r: Row) => r.asBefore)|
  }

  const ALL_STATUSES := {PASS, WARN, FAIL, Status.SKIP, INFO, RECV}

  lemma AnyStatus(s: Status)
    ensures s in ALL_STATUSES
  {}

  /** One counter for each status. */
  method CountStatuses(statuses: seq<Status>) returns (counts: map<Status, nat>)
    ensures counts.Keys == ALL_STATUSES
    ensures forall s | s in counts :: counts[s] == multiset(statuses)[s]
    ensures counts[PASS] + counts[WARN] + counts[FAIL] + counts[Status.SKIP] + counts[INFO] + counts[RECV] == |statuses|
  {
    counts := map s | s in ALL_STATUSES :: 0;
    for i := 0 to |statuses|
      invariant counts.Keys == ALL_STATUSES
      invariant forall s | s in counts :: counts[s] == multiset(statuses[..i])[s]
      invariant counts[PASS] + counts[WARN] + counts[FAIL] + counts[Status.SKIP] + counts[INFO] + counts[RECV] == i
    {
      assert statuses[..i + 1] == statuses[..i] + [statuses[i]];
      AnyStatus(statuses[i]);
      counts := counts[statuses[i] := counts[statuses[i]] + 1];
    }
    assert statuses[..|statuses|] == statuses;
  }

  method CountUnchanged(rows: seq<Row>) returns (n: nat)
    ensures n == Unchangeds(rows)
  {
    n := 0;
    for i := 0 to |rows|
      invariant n == Unchangeds(rows[..i])
    {
      FilterStep(rows, i, (r: Row) => r.asBefore);
      if rows[i].asBefore {
        n := n + 1;
      }
    }
    assert rows[..|rows|] == rows;
  }

  /** Only a PASS carries the mark. */
  ghost predicate Honest(rows: seq<Row>) {
    forall r | r in rows && r.asBefore :: r.status == PASS
  }

  lemma {:induction false} RowsAreHonest(checks: seq<Check>, x: Situation)
    ensures Honest(RunChecks(checks, x))
  {
    if checks != [] {
      RowsAreHonest(checks[..|checks| - 1], x);
    }
  }

  lemma {:induction false} HonestCount(rows: seq<Row>)
    requires Honest(rows)
    ensures Unchangeds(rows) <= multiset(Statuses(rows))[PASS]
  {
    if rows != [] {
      var rest, r := rows[..|rows| - 1], rows[|rows| - 1];
      HonestCount(rest);
      assert Statuses(rows) == Statuses(rest) + [r.status];
    }
  }

  /** `pass_unchanged` never exceeds `pass`, whatever the checks found and whichever were gated. */
  lemma UnchangedRowsPass(checks: seq<Check>, x: Situation)
    ensures Unchangeds(RunChecks(checks, x)) <= multiset(Statuses(RunChecks(checks, x)))[PASS]
  {
    RowsAreHonest(checks, x);
    HonestCount(RunChecks(checks, x));
  }

  // ----- The status of a scope -----

  function Reported(rows: seq<Row>): seq<Status> {
    Filter(Statuses(rows), (s: Status) => s != Status.SKIP)
  }

  function ScopeStatus(rows: seq<Row>): Status {
    if Reported(rows) != [] then Worst(Reported(rows)) else Status.SKIP
  }

  lemma {:induction false} MaxIsWorst(statuses: seq<Status>)
    requires statuses != []
    ensures Max(statuses) in statuses && forall s | s in statuses :: Rank(s) <= Rank(Max(statuses))
  {
    if |statuses| > 1 {
      MaxIsWorst(statuses[..|statuses| - 1]);
      assert statuses == statuses[..|statuses| - 1] + [statuses[|statuses| - 1]];
    }
  }

  /** A scope is SKIP exactly when nothing but SKIP was reported; otherwise it has the status of one
      of its rows, the worst of those that are not SKIP. */
  lemma ScopeStatusIsWorst(rows: seq<Row>)
    ensures ScopeStatus(rows) == Status.SKIP <==> forall r | r in rows :: r.status == Status.SKIP
    ensures ScopeStatus(rows) != Status.SKIP ==>
              && (exists r | r in rows :: r.status == ScopeStatus(rows))
              && (forall r | r in rows && r.status != Status.SKIP :: Rank(r.status) <= Rank(ScopeStatus(rows)))
  {
    FilterMembers(Statuses(rows), (s: Status) => s != Status.SKIP);
    assert forall r | r in rows :: r.status in Statuses(rows);
    if Reported(rows) != [] {
      MaxIsWorst(Reported(rows));
      assert ScopeStatus(rows) in Reported(rows);
    } else {
      forall r | r in rows ensures r.status == Status.SKIP {
        assert r.status !in Reported(rows);
      }
    }
  }
}
