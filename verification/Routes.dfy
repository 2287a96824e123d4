/** The verdict on one static route (checks/routes.py): what the next-hops show, and how the
deactivated ones raise the outcome. */
module Routes {
  import opened Wrappers
  import opened Seqs
  import opened Strings
  import opened Outcomes

  /** A measured route; `active` is None when the measurement lacks it. */
  datatype Route = Route(nextHops: seq<string>, active: Option<bool>)

  /** A next-hop of the configuration. */
  datatype Hop = Hop(to: string, iface: Option<string>, active: bool)

  const MISSING_FROM_TABLE := "neni v tabulce"
  const MISSING_ENTIRELY := "chybi"
  const NOT_ACTIVE := "neni aktivni"
  const DEACTIVATED := "deaktivovana"
  const NO_DATA := "bez dat"

  /** What the message says, without its wording. */
  datatype Note =
    | AllHopsOff(unfinished: bool)
    | RouteOff(unfinished: bool)
    | WasInBaseline
    | NotInTable(asBefore: bool)
    | NoActivity
    | InactiveAsBefore
    | StoppedForwarding
    | InactiveBaselineUnknown
    | Inactive
    | Reactivated(hops: string)
    | Fine(hops: string)
    | Changed(was: string, now: string)

  datatype Remark = Unfinished | SameAsBaseline | Bare

  /** The list of deactivated next-hops added to a message. */
  datatype Annotation = Annotation(hops: seq<Hop>, remark: Remark)

  datatype Finding = Finding(outcome: Outcome, value: string, before: Option<string>, note: Note, annotation: Option<Annotation>)

  /** Everything the check knows about one (rib, prefix): the measured records, whether the
      configuration deactivates the route now and in the baseline, the configured next-hops of both,
      and whether the baseline measured routes. */
  datatype Case = Case(subject: Option<Route>, baseline: Option<Route>, deactivated: bool, baselineOff: Option<bool>,
                       hops: seq<Hop>, baselineHops: seq<Hop>, measured: bool)

  // ----- Next-hop text -----

  function Join(parts: seq<string>): string {
    if parts == [] then "" else if |parts| == 1 then parts[0] else parts[0] + [','] + ([' '] + Join(parts[1..]))
  }

  function HopText(hops: seq<string>): string {
    if hops == [] then "-" else Join(Sort(hops))
  }

  function NextHopText(r: Option<Route>): Option<string> {
    if r.None? then None else Some(HopText(r.value.nextHops))
  }

  // ----- What the verdict depends on -----

  /** A record of one side: none, one without activity, one that is inactive or active. */
  datatype Presence = Absent | Unknown | Off | On

  /** The case as the branches look at it: presence and activity of both records, their next-hop
      texts, and the state of the deactivated next-hops. */
  datatype Seen = Seen(subject: Presence, baseline: Presence, was: Option<string>, now: Option<string>,
                       allOff: bool, baselineAllOff: Option<bool>, deactivated: bool, baselineOff: Option<bool>,
                       off: seq<Hop>, newlyOff: bool, offBefore: bool, measured: bool)

  function PresenceOf(r: Option<Route>): Presence {
    if r.None? then Absent else match r.value.active case None => Unknown case Some(active) => if active then On else Off
  }

  function See(c: Case): Seen {
    var off := OffHops(c.hops);
    Seen(PresenceOf(c.subject), PresenceOf(c.baseline), NextHopText(c.baseline), NextHopText(c.subject),
         AllHopsOff(c), BaselineAllOff(c), c.deactivated, c.baselineOff,
         off, NewlyOff(off, c.baselineHops), OffBefore(off, c.baselineHops), c.measured)
  }

  predicate AllHopsOff(c: Case) {
    c.hops != [] && (forall h | h in c.hops :: !h.active) && c.subject.None? && !c.deactivated
  }

  function BaselineAllOff(c: Case): Option<bool> {
    if c.baselineHops == [] then None else Some(forall h | h in c.baselineHops :: !h.active)
  }

  // ----- The shared branches -----

  function PresenceFinding(s: Seen, valueOk: string): Finding {
    if s.deactivated && s.subject.Absent? then
      var outcome := DeactivationOutcome(true, s.baselineOff).value;
      Finding(outcome, DEACTIVATED, s.was, RouteOff(outcome.Broken?), None)
    else if s.subject.Absent? then
      if !s.baseline.Absent? then Finding(Broken, MISSING_ENTIRELY, s.was, WasInBaseline, None)
      else
        var outcome := UnchangedOr(Broken, s.measured, true);
        var before := if outcome.Unchanged? then Some(MISSING_FROM_TABLE) else s.was;
        Finding(outcome, MISSING_FROM_TABLE, before, NotInTable(outcome.Unchanged?), None)
    else if s.subject.Unknown? then Finding(Skip, NO_DATA, None, NoActivity, None)
    else if s.subject.Off? then
      match s.baseline
      case Off => Finding(Outcome.Ok, NOT_ACTIVE, Some(NOT_ACTIVE), InactiveAsBefore, None)
      case On => Finding(Broken, NOT_ACTIVE, s.was, StoppedForwarding, None)
      case Unknown => Finding(Degraded, NOT_ACTIVE, None, InactiveBaselineUnknown, None)
      case Absent => Finding(Degraded, NOT_ACTIVE, s.was, Inactive, None)
    else if s.baseline.Off? then
      Finding(Recovered, valueOk, Some(NOT_ACTIVE), Reactivated(valueOk), None)
    else Finding(Outcome.Ok, valueOk, s.was, Fine(valueOk), None)
  }

  // ----- Deactivated next-hops -----

  function HopRank(o: Outcome): nat
    requires o in {Outcome.Ok, Recovered, Degraded, Broken}
  {
    match o case Ok => 0 case Recovered => 0 case Degraded => 1 case Broken => 2
  }

  function OffHops(hops: seq<Hop>): seq<Hop> {
    Filter(hops, (h: Hop) => !h.active)
  }

  /** The last baseline next-hop to the same address over the same interface. */
  function BaselineHop(hops: seq<Hop>, h: Hop): Option<Hop> {
    if hops == [] then None
    else if hops[|hops| - 1].to == h.to && hops[|hops| - 1].iface == h.iface then Some(hops[|hops| - 1])
    else BaselineHop(hops[..|hops| - 1], h)
  }

  function WasOff(baselineHops: seq<Hop>, h: Hop): Option<bool> {
    var known := BaselineHop(baselineHops, h);
    if known.None? then None else Some(!known.value.active)
  }

  predicate SameHop(a: Hop, b: Hop) {
    a.to == b.to && a.iface == b.iface
  }

  /** The baseline has this next-hop, in the last of its lines for it, as active or not. */
  ghost predicate InBaseline(hops: seq<Hop>, h: Hop, active: bool) {
    exists j | 0 <= j < |hops| :: LastLine(hops, h, j) && hops[j].active == active
  }

  ghost predicate LastLine(hops: seq<Hop>, h: Hop, j: int)
    requires 0 <= j < |hops|
  {
    SameHop(hops[j], h) && forall k | j < k < |hops| :: !SameHop(hops[k], h)
  }

  lemma {:induction false} BaselineHopIs(hops: seq<Hop>, h: Hop, j: int)
    requires 0 <= j < |hops| && LastLine(hops, h, j)
    ensures BaselineHop(hops, h) == Some(hops[j])
  {
    if j < |hops| - 1 {
      assert !SameHop(hops[|hops| - 1], h);
      BaselineHopIs(hops[..|hops| - 1], h, j);
    }
  }

  lemma {:induction false} NoBaselineHop(hops: seq<Hop>, h: Hop) returns (j: int)
    ensures BaselineHop(hops, h).Some? ==> 0 <= j < |hops| && LastLine(hops, h, j)
  {
    j := |hops| - 1;
    if hops != [] && !SameHop(hops[j], h) {
      j := NoBaselineHop(hops[..|hops| - 1], h);
    }
  }

  lemma WasOffIs(hops: seq<Hop>, h: Hop)
    ensures WasOff(hops, h) == Some(true) <==> InBaseline(hops, h, false)
    ensures WasOff(hops, h) == Some(false) <==> InBaseline(hops, h, true)
  {
    var j := NoBaselineHop(hops, h);
    if BaselineHop(hops, h).Some? {
      BaselineHopIs(hops, h, j);
    }
    forall k | 0 <= k < |hops| && LastLine(hops, h, k) ensures BaselineHop(hops, h) == Some(hops[k]) {
      BaselineHopIs(hops, h, k);
    }
  }

  predicate NewlyOff(off: seq<Hop>, baselineHops: seq<Hop>) {
    exists h | h in off :: WasOff(baselineHops, h) == Some(false)
  }

  predicate OffBefore(off: seq<Hop>, baselineHops: seq<Hop>) {
    exists h | h in off :: WasOff(baselineHops, h) == Some(true)
  }

  /** The worst of the outcome and what its deactivated next-hops amount to. */
  function Raised(o: Outcome, anyOff: bool, newlyOff: bool): Outcome {
    if newlyOff then Broken else if anyOff && o in {Outcome.Ok, Recovered} then Degraded else o
  }

  function Annotated(f: Finding, off: seq<Hop>, newlyOff: bool, offBefore: bool): Finding {
    if off == [] then f
    else
      var outcome := Raised(f.outcome, true, newlyOff);
      var remark := if outcome.Broken? then Unfinished else if offBefore then SameAsBaseline else Bare;
      f.(outcome := outcome, annotation := Some(Annotation(off, remark)))
  }

  /** The precondition is what makes the rank lookup total: no other outcome reaches the loop. */
  method AnnotateInactiveHops(f: Finding, off: seq<Hop>, baselineHops: seq<Hop>) returns (r: Finding)
    requires f.outcome in {Outcome.Ok, Recovered, Degraded}
    ensures r == Annotated(f, off, NewlyOff(off, baselineHops), OffBefore(off, baselineHops))
  {
    if off == [] {
      return f;
    }
    var worst, newly, same := f.outcome, false, false;
    for i := 0 to |off|
      invariant worst in {Outcome.Ok, Recovered, Degraded, Broken}
      invariant worst == Raised(f.outcome, i > 0, newly)
      invariant newly == NewlyOff(off[..i], baselineHops)
      invariant same == OffBefore(off[..i], baselineHops)
    {
      assert off[..i + 1] == off[..i] + [off[i]];
      var was := WasOff(baselineHops, off[i]);
      var outcome := DeactivationOutcome(true, was);
      if was == Some(false) {
        newly := true;
      } else if was == Some(true) {
        same := true;
      }
      if outcome.Some? && HopRank(outcome.value) > HopRank(worst) {
        worst := outcome.value;
      }
    }
    assert off[..|off|] == off;
    var remark := if worst.Broken? || newly then Unfinished else if same then SameAsBaseline else Bare;
    r := f.(outcome := worst, annotation := Some(Annotation(off, remark)));
  }

  /** What one deactivated next-hop amounts to. */
  ghost function Weight(baselineHops: seq<Hop>, h: Hop): Outcome {
    if InBaseline(baselineHops, h, true) then Broken else Degraded
  }

  /** The outcome's rank is the maximum over the outcome and all deactivated next-hops, and the
      outcome itself is kept when none of them exceeds it. */
  lemma RaisedIsMaximum(o: Outcome, off: seq<Hop>, baselineHops: seq<Hop>)
    requires o in {Outcome.Ok, Recovered, Degraded}
    ensures
      var r := Raised(o, off != [], NewlyOff(off, baselineHops));
      && r in {Outcome.Ok, Recovered, Degraded, Broken} && HopRank(r) >= HopRank(o)
      && (forall h | h in off :: HopRank(Weight(baselineHops, h)) <= HopRank(r))
      && (r != o ==> exists h | h in off :: Weight(baselineHops, h) == r && HopRank(r) > HopRank(o))
    ensures HopRank(Outcome.Ok) == HopRank(Recovered) < HopRank(Degraded) < HopRank(Broken)
  {
    forall h { WasOffIs(baselineHops, h); }
    if off != [] {
      assert off[0] in off;
    }
  }

  // ----- The verdict -----

  predicate InActiveTable(s: Seen) {
    s.subject.On?
  }

  function Verdict(s: Seen): Finding {
    if s.allOff then
      var outcome := DeactivationOutcome(true, s.baselineAllOff).value;
      Finding(outcome, DEACTIVATED, s.was, Note.AllHopsOff(outcome.Broken?), None)
    else if InActiveTable(s) && s.was.Some? && s.now.Some? && s.was != s.now then
      Annotated(Finding(Degraded, s.now.value, s.was, Changed(s.was.value, s.now.value), None), s.off, s.newlyOff, s.offBefore)
    else
      var presence := PresenceFinding(s, if s.now.Some? then s.now.value else "");
      if InActiveTable(s) then Annotated(presence, s.off, s.newlyOff, s.offBefore) else presence
  }

  method RouteFinding(c: Case) returns (r: Finding)
    ensures r == Verdict(See(c))
  {
    r := Decide(See(c), c.baselineHops);
  }

  method Decide(s: Seen, baselineHops: seq<Hop>) returns (r: Finding)
    requires s.newlyOff == NewlyOff(s.off, baselineHops) && s.offBefore == OffBefore(s.off, baselineHops)
    requires !s.subject.Absent? <==> s.now.Some?
    ensures r == Verdict(s)
  {
    if s.allOff {
      var outcome := DeactivationOutcome(true, s.baselineAllOff).value;
      return Finding(outcome, DEACTIVATED, s.was, Note.AllHopsOff(outcome.Broken?), None);
    }
    if InActiveTable(s) && s.was.Some? && s.was != s.now {
      r := AnnotateInactiveHops(Finding(Degraded, s.now.value, s.was, Changed(s.was.value, s.now.value), None), s.off, baselineHops);
      return;
    }
    r := PresenceFinding(s, if s.now.Some? then s.now.value else "");
    if InActiveTable(s) {
      r := AnnotateInactiveHops(r, s.off, baselineHops);
    }
  }

  // ----- The order of next-hops -----

  ghost predicate SameRoute(a: Option<Route>, b: Option<Route>) {
    if a.None? || b.None? then a == b
    else a.value.active == b.value.active && multiset(a.value.nextHops) == multiset(b.value.nextHops)
  }

  lemma SameText(a: Option<Route>, b: Option<Route>)
    requires SameRoute(a, b)
    ensures NextHopText(a) == NextHopText(b)
  {
    if a.Some? {
      SortIsCanonical(a.value.nextHops, b.value.nextHops);
      assert a.value.nextHops == [] <==> multiset(a.value.nextHops) == multiset{};
      assert b.value.nextHops == [] <==> multiset(b.value.nextHops) == multiset{};
    }
  }

  /** Permuting measured next-hops in either snapshot changes nothing in the finding. */
  lemma OrderIsIrrelevant(a: Case, b: Case)
    requires SameRoute(a.subject, b.subject) && SameRoute(a.baseline, b.baseline)
    requires a == b.(subject := a.subject, baseline := a.baseline)
    ensures Verdict(See(a)) == Verdict(See(b))
  {
    SameText(a.subject, b.subject);
    SameText(a.baseline, b.baseline);
    SameSeen(a, b);
  }

  lemma SameSeen(a: Case, b: Case)
    requires NextHopText(a.subject) == NextHopText(b.subject) && NextHopText(a.baseline) == NextHopText(b.baseline)
    requires PresenceOf(a.subject) == PresenceOf(b.subject) && PresenceOf(a.baseline) == PresenceOf(b.baseline)
    requires a.hops == b.hops && a.baselineHops == b.baselineHops && a.measured == b.measured
    requires a.deactivated == b.deactivated && a.baselineOff == b.baselineOff
    ensures See(a) == See(b)
  {}

  predicate NoCommas(hops: seq<string>) {
    forall h | h in hops :: ',' !in h
  }

  function Head(s: string): string {
    if s == "" || s[0] == ',' then "" else [s[0]] + Head(s[1..])
  }

  function AfterComma(s: string): string {
    if s == "" then "" else if s[0] == ',' then s[1..] else AfterComma(s[1..])
  }

  lemma {:induction false} CutAtComma(x: string, rest: string)
    requires ',' !in x
    ensures Head(x + [','] + rest) == x && AfterComma(x + [','] + rest) == rest && ',' in x + [','] + rest
  {
    var s := x + [','] + rest;
    if x == "" {
      assert s[1..] == rest && s[0] == ',';
    } else {
      assert s[1..] == x[1..] + [','] + rest && s[0] == x[0] && s[|x|] == ',';
      CutAtComma(x[1..], rest);
    }
  }

  /** Joined texts tell comma-free lists apart. */
  lemma {:induction false} JoinIsInjective(a: seq<string>, b: seq<string>)
    requires a != [] && b != [] && NoCommas(a) && NoCommas(b) && Join(a) == Join(b)
    ensures a == b
  {
    if |a| > 1 {
      CutAtComma(a[0], [' '] + Join(a[1..]));
    }
    if |b| > 1 {
      CutAtComma(b[0], [' '] + Join(b[1..]));
    }
    assert a[0] in a && b[0] in b;
    if |a| > 1 && |b| > 1 {
      assert ([' '] + Join(a[1..]))[1..] == Join(a[1..]) && ([' '] + Join(b[1..]))[1..] == Join(b[1..]);
      JoinIsInjective(a[1..], b[1..]);
      assert a == [a[0]] + a[1..] && b == [b[0]] + b[1..];
    }
  }

  lemma SortKeepsMembers(a: seq<string>)
    ensures forall x :: x in Sort(a) <==> x in a
  {
    forall x ensures x in Sort(a) <==> x in a {
      assert x in Sort(a) <==> x in multiset(Sort(a));
      assert x in a <==> x in multiset(a);
    }
  }

  /** Equal texts mean equal next-hops, unless the only next-hop is spelled like the placeholder for
      none. */
  lemma TextTellsHopsApart(a: seq<string>, b: seq<string>)
    requires NoCommas(a) && NoCommas(b)
    ensures HopText(a) == HopText(b) <==>
            multiset(a) == multiset(b) || (a == [] && b == ["-"]) || (a == ["-"] && b == [])
  {
    SortKeepsMembers(a);
    SortKeepsMembers(b);
    SortIsCanonical(a, b);
    if a == [] {
      AloneDash(b);
    } else if b == [] {
      AloneDash(a);
    } else if HopText(a) == HopText(b) {
      assert a[0] in Sort(a) && b[0] in Sort(b);
      JoinIsInjective(Sort(a), Sort(b));
    }
  }

  lemma AloneDash(a: seq<string>)
    requires NoCommas(a)
    ensures HopText(a) == "-" <==> a == [] || a == ["-"]
    ensures multiset(a) == multiset([]) <==> a == []
  {}

  ghost predicate Consistent(s: Seen) {
    && (!s.subject.Absent? <==> s.now.Some?) && (!s.baseline.Absent? <==> s.was.Some?)
    && (s.allOff ==> s.subject.Absent? && !s.deactivated)
    && (s.newlyOff ==> s.off != [])
  }

  lemma SeenIsConsistent(c: Case)
    ensures Consistent(See(c))
  {}

  lemma ChangedNote(s: Seen)
    requires Consistent(s)
    ensures Verdict(s).note.Changed? <==> InActiveTable(s) && !s.baseline.Absent? && s.was != s.now
  {}

  predicate CommaFree(r: Option<Route>) {
    r.Some? ==> NoCommas(r.value.nextHops)
  }

  /** Different next-hops, other than none against the one that is spelled like none. */
  predicate Differ(a: seq<string>, b: seq<string>) {
    multiset(a) != multiset(b) && !(a == [] && b == ["-"]) && !(a == ["-"] && b == [])
  }

  predicate HopsChanged(c: Case) {
    c.subject.Some? && c.baseline.Some? && Differ(c.subject.value.nextHops, c.baseline.value.nextHops)
  }

  /** The activity of a record, None without a record or without its activity. */
  function ActivityOf(r: Option<Route>): Option<bool> {
    if r.Some? then r.value.active else None
  }

  lemma SeenTexts(c: Case)
    requires CommaFree(c.subject) && CommaFree(c.baseline)
    ensures c.subject.Some? && c.baseline.Some? ==> (See(c).was != See(c).now <==> HopsChanged(c))
  {
    if c.subject.Some? && c.baseline.Some? {
      TextTellsHopsApart(c.subject.value.nextHops, c.baseline.value.nextHops);
    }
  }

  /** Main theorem: "next-hop changed" is reported exactly when an active route of the subject has
      other next-hops than in the baseline, as a multiset. */
  lemma ChangeMeansDifferentHops(c: Case)
    requires CommaFree(c.subject) && CommaFree(c.baseline)
    ensures Verdict(See(c)).note.Changed? <==> ActivityOf(c.subject) == Some(true) && HopsChanged(c)
  {
    SeenIsConsistent(c);
    ChangedNote(See(c));
    SeenTexts(c);
  }

  lemma SingleSorted(x: string)
    ensures Sort([x]) == [x]
  {
    assert [x][..0] == [];
  }

  /** Both exceptions are real, for every list of next-hops but a single one: the one next-hop that
      is spelled like the whole list hides the change, in either direction. */
  lemma HiddenChanges(hops: seq<string>, c: Case)
    requires |hops| != 1 && c.subject.Some? && c.baseline.Some?
    requires (c.subject.value.nextHops == hops && c.baseline.value.nextHops == [HopText(hops)]) ||
             (c.subject.value.nextHops == [HopText(hops)] && c.baseline.value.nextHops == hops)
    ensures multiset(c.subject.value.nextHops) != multiset(c.baseline.value.nextHops)
    ensures !Verdict(See(c)).note.Changed?
  {
    var one := [HopText(hops)];
    SingleSorted(HopText(hops));
    assert |multiset(hops)| == |hops| && |multiset(one)| == 1;
    SeenIsConsistent(c);
    ChangedNote(See(c));
    assert HopText(one) == HopText(hops);
  }

  predicate AnyHopOff(c: Case) {
    exists h | h in c.hops :: !h.active
  }

  /** A configured next-hop is switched off that was on in the baseline. */
  ghost predicate AnyHopNewlyOff(c: Case) {
    exists h | h in c.hops :: !h.active && InBaseline(c.baselineHops, h, true)
  }

  lemma SeenHops(c: Case)
    ensures See(c).off != [] <==> AnyHopOff(c)
    ensures See(c).newlyOff <==> AnyHopNewlyOff(c)
  {
    FilterMembers(c.hops, (h: Hop) => !h.active);
    assert forall h | h in c.hops && !h.active :: h in See(c).off;
    forall h { WasOffIs(c.baselineHops, h); }
    if See(c).off != [] {
      assert See(c).off[0] in See(c).off;
    }
  }

  lemma SeenOutcome(s: Seen)
    requires Consistent(s)
    ensures
      var o := Verdict(s).outcome;
      match s.subject
      case On => o == (if s.newlyOff then Broken else if s.off != [] || (s.was.Some? && s.was != s.now) then Degraded
                       else if s.baseline.Off? then Recovered else Outcome.Ok)
      case Off => o == if s.baseline.Off? then Outcome.Ok else if s.baseline.On? then Broken else Degraded
      case Unknown => o == Skip
      case Absent =>
        if s.allOff then o == DeactivationOutcome(true, s.baselineAllOff).value
        else if s.deactivated then o == DeactivationOutcome(true, s.baselineOff).value
        else o == if s.baseline.Absent? && s.measured then Unchanged else Broken
  {}

  /** All configured next-hops are switched off, of a route that is not, and it is not in the table. */
  predicate SwitchedOff(c: Case) {
    c.subject.None? && !c.deactivated && c.hops != [] && !exists h | h in c.hops :: h.active
  }

  lemma SwitchedOffIs(c: Case)
    ensures AllHopsOff(c) <==> SwitchedOff(c)
  {}

  /** What the good verdicts mean.  A healthy route forwards over the next-hops of the baseline with
      none switched off, or is as inactive as before; Recovered is not given to a reactivated route
      whose next-hops changed as well. */
  lemma GoodVerdicts(c: Case)
    requires CommaFree(c.subject) && CommaFree(c.baseline)
    ensures
      var o, now, before := Verdict(See(c)).outcome, ActivityOf(c.subject), ActivityOf(c.baseline);
      var clean := now == Some(true) && !AnyHopOff(c) && !HopsChanged(c);
      && (o.Ok? <==> (clean && before != Some(false)) || (now == Some(false) && before == Some(false)))
      && (o.Recovered? <==> clean && before == Some(false))
      && (o.Unchanged? <==> c.subject.None? && c.baseline.None? && !c.deactivated && !SwitchedOff(c) && c.measured)
      && (o.Skip? <==> c.subject.Some? && now.None?)
  {
    var s := See(c);
    SeenIsConsistent(c);
    SubjectSeen(c);
    BaselineSeen(c);
    ConfigurationSeen(c);
    SeenTexts(c);
    SeenHops(c);
    SeenOutcome(s);
    assert s.measured == c.measured && (s.newlyOff ==> s.off != []);
  }

  /** And the bad ones: a regression is something the baseline had and the subject has not, an
      unexplained absence, or something newly switched off. */
  lemma BrokenVerdicts(c: Case)
    ensures Verdict(See(c)).outcome.Broken? <==>
            if c.subject.None? then
              if SwitchedOff(c) then exists h | h in c.baselineHops :: h.active
              else if c.deactivated then c.baselineOff == Some(false)
              else c.baseline.Some? || !c.measured
            else
              (ActivityOf(c.subject) == Some(false) && ActivityOf(c.baseline) == Some(true)) ||
              (ActivityOf(c.subject) == Some(true) && AnyHopNewlyOff(c))
  {
    SeenIsConsistent(c);
    SeenOutcome(See(c));
    SeenHops(c);
    SwitchedOffIs(c);
    assert (exists h | h in c.baselineHops :: h.active) <==> BaselineAllOff(c) == Some(false);
  }

  /** Another text for the next-hops than in the baseline. */
  predicate TextChanged(c: Case) {
    c.subject.Some? && c.baseline.Some? && HopText(c.subject.value.nextHops) != HopText(c.baseline.value.nextHops)
  }

  /** And those between: an expected absence, a route that is not active for unknown reasons, or an active
      one with changed or deactivated next-hops. */
  lemma DegradedVerdicts(c: Case)
    ensures Verdict(See(c)).outcome.Degraded? <==>
            if c.subject.None? then
              if SwitchedOff(c) then !exists h | h in c.baselineHops :: h.active
              else c.deactivated && c.baselineOff != Some(false)
            else if ActivityOf(c.subject) == Some(false) then ActivityOf(c.baseline) == None
            else ActivityOf(c.subject) == Some(true) && !AnyHopNewlyOff(c) && (AnyHopOff(c) || TextChanged(c))
    ensures !Verdict(See(c)).outcome.Info?
  {
    SeenIsConsistent(c);
    SeenOutcome(See(c));
    SeenHops(c);
    SwitchedOffIs(c);
    assert (exists h | h in c.baselineHops :: h.active) <==> BaselineAllOff(c) == Some(false);
  }

  lemma SeenValues(s: Seen)
    requires Consistent(s)
    ensures
      var r := Verdict(s);
      match s.subject
      case On =>
        r.value == s.now.value && r.before == if s.baseline.Off? && s.was == s.now then Some(NOT_ACTIVE) else s.was
      case Off => r.value == NOT_ACTIVE && r.before == if s.baseline.Off? then Some(NOT_ACTIVE) else if s.baseline.Unknown? then None else s.was
      case Unknown => r.value == NO_DATA && r.before == None
      case Absent =>
        && r.value == (if s.allOff || s.deactivated then DEACTIVATED else if s.baseline.Absent? then MISSING_FROM_TABLE else MISSING_ENTIRELY)
        && r.before == if r.outcome.Unchanged? then Some(MISSING_FROM_TABLE) else s.was
  {}

  lemma SubjectSeen(c: Case)
    ensures
      var s := See(c);
      && s.now == (if c.subject.Some? then Some(HopText(c.subject.value.nextHops)) else None)
      && (s.subject.Absent? <==> c.subject.None?) && (s.subject.On? <==> ActivityOf(c.subject) == Some(true))
      && (s.subject.Off? <==> ActivityOf(c.subject) == Some(false))
  {}

  lemma BaselineSeen(c: Case)
    ensures
      var s := See(c);
      && s.was == (if c.baseline.Some? then Some(HopText(c.baseline.value.nextHops)) else None)
      && (s.baseline.Absent? <==> c.baseline.None?) && (s.baseline.Off? <==> ActivityOf(c.baseline) == Some(false))
      && (s.baseline.Unknown? <==> c.baseline.Some? && ActivityOf(c.baseline) == None)
  {}

  lemma ConfigurationSeen(c: Case)
    ensures See(c).allOff == SwitchedOff(c) && See(c).deactivated == c.deactivated
  {
    SwitchedOffIs(c);
  }

  /** The value shown, by the two records and the configuration. */
  lemma ValueShown(c: Case)
    ensures Verdict(See(c)).value ==
            match c.subject
            case None =>
              if c.deactivated || SwitchedOff(c) then "deaktivovana" else if c.baseline.Some? then "chybi" else "neni v tabulce"
            case Some(r) =>
              if r.active == None then "bez dat" else if r.active == Some(false) then "neni aktivni" else HopText(r.nextHops)
  {
    SeenIsConsistent(c);
    SubjectSeen(c);
    BaselineSeen(c);
    ConfigurationSeen(c);
    SeenValues(See(c));
  }

  /** The baseline value shown: its next-hops, but for a route that was not active or an absence that is
      nothing new, and none where it would claim to know more than was measured. */
  lemma BaselineShown(c: Case)
    ensures
      var was := if c.baseline.Some? then Some(HopText(c.baseline.value.nextHops)) else None;
      Verdict(See(c)).before ==
      match c.subject
      case None => if Verdict(See(c)).outcome.Unchanged? then Some("neni v tabulce") else was
      case Some(r) =>
        if r.active == None then None
        else if ActivityOf(c.baseline) == Some(false) && !(r.active == Some(true) && TextChanged(c)) then Some("neni aktivni")
        else if r.active == Some(false) && ActivityOf(c.baseline) == None then None
        else was
  {
    SeenIsConsistent(c);
    SubjectSeen(c);
    BaselineSeen(c);
    ConfigurationSeen(c);
    SeenValues(See(c));
  }

  lemma SeenAnnotation(s: Seen)
    requires Consistent(s)
    ensures
      var r := Verdict(s);
      && (r.annotation.Some? <==> s.subject.On? && s.off != [])
      && (r.annotation.Some? ==>
            && r.annotation.value.hops == s.off && (r.annotation.value.remark.Unfinished? <==> r.outcome.Broken?)
            && (r.annotation.value.remark.SameAsBaseline? <==> !r.outcome.Broken? && s.offBefore))
  {}

  lemma SeenOffBefore(c: Case)
    ensures forall h :: h in See(c).off <==> h in c.hops && !h.active
    ensures See(c).offBefore <==> exists h | h in c.hops :: !h.active && InBaseline(c.baselineHops, h, false)
  {
    FilterMembers(c.hops, (h: Hop) => !h.active);
    forall h { WasOffIs(c.baselineHops, h); }
  }

  /** The deactivated next-hops are listed exactly for an active route that has any, and called unfinished
      exactly when the verdict is BROKEN. */
  lemma AnnotationShown(c: Case)
    ensures
      var r := Verdict(See(c));
      && (r.annotation.Some? <==> ActivityOf(c.subject) == Some(true) && AnyHopOff(c))
      && (r.annotation.Some? ==>
            && (forall h :: h in r.annotation.value.hops <==> h in c.hops && !h.active)
            && (r.annotation.value.remark.Unfinished? <==> r.outcome.Broken?)
            && (r.annotation.value.remark.SameAsBaseline? <==>
                !r.outcome.Broken? && exists h | h in c.hops :: !h.active && InBaseline(c.baselineHops, h, false)))
  {
    SeenIsConsistent(c);
    SeenHops(c);
    SeenOffBefore(c);
    SubjectSeen(c);
    BaselineSeen(c);
    ConfigurationSeen(c);
    SeenAnnotation(See(c));
  }

  lemma SortPair(a: string, b: string)
    requires Le(a, b)
    ensures Sort([a, b]) == [a, b]
  {
    SortIsSorted([a, b]);
    assert Sorted([a, b]);
    SortedIsUnique(Sort([a, b]), [a, b]);
  }

  lemma PairOrder(a: string, b: string)
    ensures Sort([b, a]) == Sort([a, b])
  {
    SortIsCanonical([a, b], [b, a]);
  }

  lemma JoinPair(a: string, b: string)
    ensures Join([a, b]) == a + ", " + b
  {
    assert [a, b][1..] == [b] && Join([b]) == b;
    assert a + [','] + ([' '] + b) == a + ", " + b;
  }

  /** How next-hops are spelled: sorted, with a comma and a blank between them. */
  lemma HopTextIs(a: string, b: string)
    ensures HopText([]) == "-" && HopText([a]) == a
    ensures Le(a, b) ==> HopText([a, b]) == a + ", " + b && HopText([b, a]) == a + ", " + b
  {
    SingleSorted(a);
    if Le(a, b) {
      SortPair(a, b);
      PairOrder(a, b);
      JoinPair(a, b);
    }
  }
}
