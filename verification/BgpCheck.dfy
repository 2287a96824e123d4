/** The BGP session check (checks/bgp.py) over the records that each side's scope selects: which
addresses get a row, and what may be concluded from none, one or several records. */
module BgpCheck {
  import opened Wrappers
  import opened Seqs
  import opened Strings
  import opened Ownership
  import opened Outcomes

  const ESTABLISHED := "Established"
  const UNKNOWN := "unknown"

  /** A scope with the facts of its whole box. */
  datatype Side = Side(scope: Scope, facts: seq<Bgp>)

  /** `measured`: the baseline's BGP collector reports status ok. */
  datatype Context = Context(subject: Side, baseline: Option<Side>, measured: bool)

  datatype Value = State(state: string) | Deactivated | NoSession | NotInService | Unclear(count: nat)

  datatype Row = Row(peer: string, outcome: Outcome, value: Value, before: Option<Value>)

  datatype Report = NoPeers | Peers(rows: seq<Row>)

  /** What a check sees of one side: the intent and the selected sessions. */
  datatype Facts = Facts(configured: seq<string>, inactive: seq<string>, peers: map<string, string>, ambiguous: map<string, nat>)

  const NOTHING := Facts([], [], map[], map[])

  datatype Pair = Pair(subject: Facts, prior: Facts, compared: bool, measured: bool)

  function StateOf(r: Bgp): string {
    if r.state.Some? then r.state.value else UNKNOWN
  }

  function FactsOf(side: Side): Facts {
    var selected := SelectBgp(side.scope, side.facts);
    var view := View(selected, BgpKey());
    Facts(side.scope.neighbors, side.scope.inactive, map k | k in view :: StateOf(view[k]), Ambiguous(selected, BgpKey()))
  }

  function PairOf(c: Context): Pair {
    Pair(FactsOf(c.subject), if c.baseline.Some? then FactsOf(c.baseline.value) else NOTHING, c.baseline.Some?, c.measured)
  }

  method SelectFacts(side: Side) returns (f: Facts)
    ensures f == FactsOf(side)
  {
    var view, ambiguous := ByKey(SelectBgp(side.scope, side.facts), BgpKey());
    f := Facts(side.scope.neighbors, side.scope.inactive, map k | k in view :: StateOf(view[k]), ambiguous);
  }

  function Without(subject: Facts): string -> bool {
    (p: string) => p !in subject.peers
  }

  /** Deactivated peers without a session, repetitions of the configuration included. */
  function InactiveList(subject: Facts): seq<string> {
    Filter(subject.inactive, Without(subject))
  }

  function Universe(p: Pair): set<string> {
    Elements(p.subject.configured) + Elements(p.subject.inactive) + p.subject.peers.Keys + p.prior.peers.Keys
  }

  /** Peers that should have a session and have none. */
  function Missing(p: Pair): set<string> {
    Universe(p) - p.subject.peers.Keys - Elements(p.subject.inactive)
  }

  function Before(prior: Facts, peer: string): Option<Value> {
    if peer in prior.peers then Some(State(prior.peers[peer]))
    else if peer in prior.ambiguous then Some(Unclear(prior.ambiguous[peer]))
    else None
  }

  function Measured(p: Pair): bool {
    p.compared && p.measured
  }

  /** A peer with one session. */
  function MeasuredRow(p: Pair, state: string, peer: string): Row {
    var known := peer in p.prior.peers;
    if state != ESTABLISHED then
      var same := state != UNKNOWN && known && p.prior.peers[peer] == state;
      Row(peer, UnchangedOr(Broken, Measured(p), same), State(state), Before(p.prior, peer))
    else
      Row(peer, if known && p.prior.peers[peer] != state then Recovered else Outcome.Ok, State(state), Before(p.prior, peer))
  }

  function BaselineOff(p: Pair, peer: string): Option<bool> {
    if peer in p.prior.inactive then Some(true) else if peer in p.prior.configured then Some(false) else None
  }

  /** A deactivated peer without a session of its own. */
  function InactiveRow(p: Pair, peer: string): Row {
    if peer in p.subject.ambiguous then Row(peer, Skip, Unclear(p.subject.ambiguous[peer]), Before(p.prior, peer))
    else
      var off := BaselineOff(p, peer);
      Row(peer, DeactivationOutcome(true, off).value, Deactivated,
          if off == Some(true) then Some(Deactivated) else if peer in p.prior.peers then Some(State(p.prior.peers[peer])) else None)
  }

  function MissingRow(p: Pair, peer: string): Row {
    if peer in p.subject.ambiguous then Row(peer, Skip, Unclear(p.subject.ambiguous[peer]), Before(p.prior, peer))
    else
      var outcome := UnchangedOr(Broken, Measured(p), peer !in p.prior.peers && peer !in p.prior.ambiguous);
      var value := if peer in p.subject.configured then NoSession else NotInService;
      Row(peer, outcome, value, if outcome.Unchanged? then Some(value) else Before(p.prior, peer))
  }

  /** The row of one address of the universe. */
  function RowOf(p: Pair): string -> Row {
    (peer: string) =>
      if peer in p.subject.peers then MeasuredRow(p, p.subject.peers[peer], peer)
      else if peer in p.subject.inactive then InactiveRow(p, peer)
      else MissingRow(p, peer)
  }

  /** The order of the rows: measured peers, deactivated ones, peers without a session. */
  ghost function Order(p: Pair): seq<string> {
    SortedOf(p.subject.peers.Keys) + Sort(InactiveList(p.subject)) + SortedOf(Missing(p))
  }

  ghost function Rows(p: Pair): seq<Row> {
    Map(Order(p), RowOf(p))
  }

  method Run(c: Context) returns (r: Report)
    ensures r == if Universe(PairOf(c)) == {} then NoPeers else Peers(Rows(PairOf(c)))
  {
    var subject := SelectFacts(c.subject);
    var prior := NOTHING;
    if c.baseline.Some? {
      prior := SelectFacts(c.baseline.value);
    }
    var p := Pair(subject, prior, c.baseline.Some?, c.measured);
    if Universe(p) == {} {
      return NoPeers;
    }
    var measured := MeasuredRows(p);
    var inactive := InactiveRows(p);
    var missing := MissingRows(p);
    MapConcat(SortedOf(p.subject.peers.Keys), Sort(InactiveList(p.subject)), RowOf(p));
    MapConcat(SortedOf(p.subject.peers.Keys) + Sort(InactiveList(p.subject)), SortedOf(Missing(p)), RowOf(p));
    r := Peers(measured + inactive + missing);
  }

  method MeasuredRows(p: Pair) returns (rows: seq<Row>)
    ensures rows == Map(SortedOf(p.subject.peers.Keys), RowOf(p))
  {
    var order := SortSet(p.subject.peers.Keys);
    ListsIsUnique(order, SortedOf(p.subject.peers.Keys), p.subject.peers.Keys);
    rows := [];
    for k := 0 to |order|
      invariant rows == Map(order[..k], RowOf(p))
    {
      assert order[k] in multiset(order);
      MapStep(order, k, RowOf(p));
      rows := rows + [MeasuredRow(p, p.subject.peers[order[k]], order[k])];
    }
    assert order[..|order|] == order;
  }

  method InactiveRows(p: Pair) returns (rows: seq<Row>)
    ensures rows == Map(Sort(InactiveList(p.subject)), RowOf(p))
  {
    var order := Sort(InactiveList(p.subject));
    rows := [];
    for k := 0 to |order|
      invariant rows == Map(order[..k], RowOf(p))
    {
      InactiveListed(p.subject, order[k]);
      MapStep(order, k, RowOf(p));
      rows := rows + [InactiveRow(p, order[k])];
    }
    assert order[..|order|] == order;
  }

  method MissingRows(p: Pair) returns (rows: seq<Row>)
    ensures rows == Map(SortedOf(Missing(p)), RowOf(p))
  {
    var order := SortSet(Missing(p));
    ListsIsUnique(order, SortedOf(Missing(p)), Missing(p));
    rows := [];
    for k := 0 to |order|
      invariant rows == Map(order[..k], RowOf(p))
    {
      MissingListed(p, order, k);
      MapStep(order, k, RowOf(p));
      rows := rows + [MissingRow(p, order[k])];
    }
    assert order[..|order|] == order;
  }

  lemma MissingListed(p: Pair, order: seq<string>, k: nat)
    requires Lists(order, Missing(p)) && k < |order|
    ensures RowOf(p)(order[k]) == MissingRow(p, order[k])
  {
    assert order[k] in multiset(order);
    assert order[k] in Missing(p);
  }

  lemma InactiveListed(subject: Facts, peer: string)
    ensures peer in Sort(InactiveList(subject)) <==> peer in subject.inactive && peer !in subject.peers
  {
    FilterMembers(subject.inactive, Without(subject));
    var list := InactiveList(subject);
    assert peer in Sort(list) <==> peer in multiset(Sort(list));
    assert peer in list <==> peer in multiset(list);
  }

  // ----- Coverage -----

  function Addresses(rows: seq<Row>): seq<string> {
    Map(rows, (r: Row) => r.peer)
  }

  lemma AddressesInOrder(p: Pair)
    ensures Addresses(Rows(p)) == Order(p)
  {}

  lemma DisjointUnion(k: set<string>, l: set<string>, m: set<string>)
    requires k !! l && (k + l) !! m
    ensures multiset(k + l + m) == multiset(k) + multiset(l) + multiset(m)
  {}

  lemma UniverseParts(p: Pair)
    ensures var k, l, m := p.subject.peers.Keys, Elements(InactiveList(p.subject)), Missing(p);
            Universe(p) == k + l + m && k !! l && (k + l) !! m
  {
    FilterMembers(p.subject.inactive, Without(p.subject));
    var k, l := p.subject.peers.Keys, Elements(InactiveList(p.subject));
    assert l == Elements(p.subject.inactive) - k;
    assert k + Elements(p.subject.inactive) <= Universe(p);
  }

  lemma OrderCounts(p: Pair)
    ensures multiset(Order(p)) == multiset(p.subject.peers.Keys) + multiset(InactiveList(p.subject)) + multiset(Missing(p))
    ensures multiset(Universe(p)) == multiset(p.subject.peers.Keys) + multiset(Elements(InactiveList(p.subject))) + multiset(Missing(p))
  {
    UniverseParts(p);
    DisjointUnion(p.subject.peers.Keys, Elements(InactiveList(p.subject)), Missing(p));
  }

  lemma MultisetCancel(a: multiset<string>, x: multiset<string>, y: multiset<string>, b: multiset<string>)
    ensures a + x + b == a + y + b <==> x == y
  {
    if a + x + b == a + y + b {
      assert x == (a + x + b) - a - b && y == (a + y + b) - a - b;
    }
  }

  lemma OrderCovers(p: Pair, peer: string)
    ensures peer in Order(p) <==> peer in Universe(p)
  {
    OrderCounts(p);
    assert peer in Order(p) <==> peer in multiset(Order(p));
    assert peer in Universe(p) <==> peer in multiset(Universe(p));
    assert peer in multiset(Elements(InactiveList(p.subject))) <==> peer in InactiveList(p.subject);
    assert peer in InactiveList(p.subject) <==> peer in multiset(InactiveList(p.subject));
  }

  /** An address has a row exactly when it is configured, deactivated, measured or was measured in
      the baseline; and it has just one row, for every address, exactly when the configuration
      repeats no deactivated peer that lacks a session. */
  lemma OneRowPerAddress(p: Pair)
    ensures forall peer :: peer in Addresses(Rows(p)) <==> peer in Universe(p)
    ensures multiset(Addresses(Rows(p))) == multiset(Universe(p)) <==> Distinct(InactiveList(p.subject))
  {
    AddressesInOrder(p);
    forall peer { OrderCovers(p, peer); }
    OrderCounts(p);
    DistinctIsSet(InactiveList(p.subject));
    var list := InactiveList(p.subject);
    MultisetCancel(multiset(p.subject.peers.Keys), multiset(list), multiset(Elements(list)), multiset(Missing(p)));
  }

  // ----- Soundness, in terms of the records on the two boxes -----

  /** The records a side's scope owns for one address. */
  function Records(side: Side, peer: string): seq<Bgp> {
    Group(SelectBgp(side.scope, side.facts), BgpKey(), peer)
  }

  function OldRecords(c: Context, peer: string): seq<Bgp> {
    if c.baseline.Some? then Records(c.baseline.value, peer) else []
  }

  ghost predicate CountsRecords(f: Facts, records: seq<Bgp>, peer: string) {
    && (peer in f.peers <==> |records| == 1)
    && (peer in f.peers ==> f.peers[peer] == StateText(records[0]))
    && (peer in f.ambiguous <==> |records| >= 2)
    && (peer in f.ambiguous ==> f.ambiguous[peer] == |records|)
    && (records != [] ==> peer in f.configured || peer in f.inactive)
  }

  /** One record is the peer's state, several make it ambiguous. */
  lemma FactsCountRecords(side: Side, peer: string)
    ensures CountsRecords(FactsOf(side), Records(side, peer), peer)
  {
    var selected := SelectBgp(side.scope, side.facts);
    GroupMembers(selected, BgpKey(), peer);
    if peer in Keys(selected, BgpKey()) {
      var i :| 0 <= i < |selected| && BgpKey()(selected[i]) == peer;
      assert selected[i] in Records(side, peer);
    }
    if Records(side, peer) != [] {
      var r := Records(side, peer)[0];
      assert r in Records(side, peer);
      var i :| 0 <= i < |selected| && selected[i] == r;
    }
  }

  /** The state a record shows. */
  function StateText(r: Bgp): string {
    match r.state case Some(state) => state case None => "unknown"
  }

  ghost predicate OneWith(records: seq<Bgp>, state: string) {
    |records| == 1 && StateText(records[0]) == state
  }

  /** What the two configurations say about a peer, and whether the baseline measured BGP. */
  datatype Setting = Setting(configured: bool, deactivated: bool, ranBefore: bool, wasOff: bool, measured: bool)

  /** A peer ran before when the baseline's scope lists it as active and not as deactivated. */
  function SettingOf(c: Context, peer: string): Setting {
    Setting(peer in c.subject.scope.neighbors, peer in c.subject.scope.inactive,
            c.baseline.Some? && peer in c.baseline.value.scope.neighbors && peer !in c.baseline.value.scope.inactive,
            c.baseline.Some? && peer in c.baseline.value.scope.inactive,
            c.baseline.Some? && c.measured)
  }

  /** The verdict on one address, by the configuration and the records of each box. */
  ghost predicate Justified(k: Setting, r: Row, now: seq<Bgp>, before: seq<Bgp>) {
    var up := OneWith(now, "Established");
    var off := now == [] && k.deactivated;
    var down := (|now| == 1 && !up) || (now == [] && !off);
    var same := if now == [] then before == [] else StateText(now[0]) != "unknown" && OneWith(before, StateText(now[0]));
    && (r.outcome.Skip? <==> |now| >= 2)
    && (r.outcome.Unchanged? <==> down && same && k.measured)
    && (r.outcome.Ok? <==> up && (|before| == 1 ==> OneWith(before, "Established")))
    && (r.outcome.Recovered? <==> up && |before| == 1 && !OneWith(before, "Established"))
    && (r.outcome.Degraded? <==> off && !k.ranBefore)
    && (r.outcome.Broken? <==> (off && k.ranBefore) || (down && !(same && k.measured)))
    && !r.outcome.Info?
  }

  /** The values shown, by the same.  A row that claims no change and names no session of the baseline
      repeats its own value. */
  ghost predicate Truthful(k: Setting, r: Row, now: seq<Bgp>, before: seq<Bgp>) {
    var off := now == [] && k.deactivated;
    && (|now| == 1 ==> r.value == State(StateText(now[0])))
    && (|now| >= 2 ==> r.value == Unclear(|now|))
    && (r.value.Deactivated? <==> off)
    && (r.value.NoSession? <==> now == [] && !off && k.configured)
    && (r.value.NotInService? <==> now == [] && !off && !k.configured)
    && (r.before == Some(Deactivated) <==> off && k.wasOff)
    && (|before| == 1 && !(off && k.wasOff) ==> r.before == Some(State(StateText(before[0]))))
    && (|before| >= 2 && !off ==> r.before == Some(Unclear(|before|)))
    && (before == [] && !(off && k.wasOff) ==> r.before == if r.outcome.Unchanged? then Some(r.value) else None)
  }

  /** What the check looks at says the same. */
  ghost predicate Fits(p: Pair, k: Setting, peer: string) {
    && k.configured == (peer in p.subject.configured) && k.deactivated == (peer in p.subject.inactive)
    && k.ranBefore == (peer in p.prior.configured && peer !in p.prior.inactive) && k.wasOff == (peer in p.prior.inactive)
    && k.measured == (p.compared && p.measured)
  }

  lemma SettingFits(c: Context, peer: string)
    ensures Fits(PairOf(c), SettingOf(c, peer), peer)
  {}

  lemma RowIsJustified(p: Pair, k: Setting, peer: string, now: seq<Bgp>, before: seq<Bgp>)
    requires CountsRecords(p.subject, now, peer) && CountsRecords(p.prior, before, peer) && Fits(p, k, peer)
    ensures Justified(k, RowOf(p)(peer), now, before)
  {}

  lemma RowIsTruthful(p: Pair, k: Setting, peer: string, now: seq<Bgp>, before: seq<Bgp>)
    requires CountsRecords(p.subject, now, peer) && CountsRecords(p.prior, before, peer) && Fits(p, k, peer)
    ensures Truthful(k, RowOf(p)(peer), now, before)
  {}

  lemma FactsCountBoth(c: Context, peer: string)
    ensures CountsRecords(PairOf(c).subject, Records(c.subject, peer), peer)
    ensures CountsRecords(PairOf(c).prior, OldRecords(c, peer), peer)
  {
    FactsCountRecords(c.subject, peer);
    if c.baseline.Some? {
      FactsCountRecords(c.baseline.value, peer);
    }
  }

  /** Main theorem: every row of the report is justified by the configuration and the records.  Several
      records of the subject give SKIP and nothing else; Unchanged needs a measured baseline with the same
      unambiguous condition; a deactivated peer without a session is Broken exactly when it ran before. */
  lemma EveryRowIsJustified(c: Context, r: Row)
    requires r in Rows(PairOf(c))
    ensures Justified(SettingOf(c, r.peer), r, Records(c.subject, r.peer), OldRecords(c, r.peer))
    ensures Truthful(SettingOf(c, r.peer), r, Records(c.subject, r.peer), OldRecords(c, r.peer))
    ensures r.value.NotInService? ==> |OldRecords(c, r.peer)| == 1
  {
    var p := PairOf(c);
    var peer :| peer in Order(p) && RowOf(p)(peer) == r;
    OrderCovers(p, peer);
    FactsCountBoth(c, peer);
    UniverseIs(p, Records(c.subject, peer), OldRecords(c, peer), peer);
    SettingFits(c, peer);
    RowIsJustified(p, SettingOf(c, peer), peer, Records(c.subject, peer), OldRecords(c, peer));
    RowIsTruthful(p, SettingOf(c, peer), peer, Records(c.subject, peer), OldRecords(c, peer));
  }

  /** A side's records for an address are the ones its scope owns there, each as often as the box reported
      it. */
  lemma RecordsAre(side: Side, peer: string, x: Bgp)
    ensures multiset(Records(side, peer))[x] ==
            if BgpOwner(side.scope, x) && peer == (match x.address case Some(a) => a case None => "None") then multiset(side.facts)[x] else 0
  {
    SelectBgpExactly(side.scope, side.facts, x);
    GroupCounts(SelectBgp(side.scope, side.facts), BgpKey(), peer, x);
  }

  lemma UniverseIs(p: Pair, now: seq<Bgp>, before: seq<Bgp>, peer: string)
    requires CountsRecords(p.subject, now, peer) && CountsRecords(p.prior, before, peer)
    ensures peer in Universe(p) <==> peer in p.subject.configured || peer in p.subject.inactive || |now| == 1 || |before| == 1
  {}

  /** Which addresses have rows: the configured and the deactivated ones, and those with just one record
      now or before. */
  lemma RowsExactly(c: Context, peer: string)
    ensures peer in Addresses(Rows(PairOf(c))) <==>
            || peer in c.subject.scope.neighbors || peer in c.subject.scope.inactive
            || |Records(c.subject, peer)| == 1 || |OldRecords(c, peer)| == 1
  {
    var p := PairOf(c);
    AddressesInOrder(p);
    OrderCovers(p, peer);
    FactsCountBoth(c, peer);
    UniverseIs(p, Records(c.subject, peer), OldRecords(c, peer), peer);
  }

  /** What the universe leaves out: a peer whose baseline records were ambiguous and which the
      subject no longer configures gets no row at all. */
  lemma AmbiguousBaselinePeerIsForgotten(c: Context, peer: string)
    requires |OldRecords(c, peer)| >= 2
    requires peer !in c.subject.scope.neighbors && peer !in c.subject.scope.inactive
    ensures peer !in Addresses(Rows(PairOf(c)))
  {
    var p := PairOf(c);
    FactsCountRecords(c.subject, peer);
    FactsCountRecords(c.baseline.value, peer);
    assert peer !in p.subject.peers && peer !in p.prior.peers;
    assert peer !in Universe(p);
    OneRowPerAddress(p);
  }

  // ----- The order of the rows -----

  /** Peers with one session, deactivated ones, the others. */
  function Part(c: Context, r: Row): nat {
    if r.value.State? then 0 else if r.peer in c.subject.scope.inactive then 1 else 2
  }

  lemma PartOf(c: Context, peer: string)
    ensures
      var p := PairOf(c);
      Part(c, RowOf(p)(peer)) == if peer in p.subject.peers then 0 else if peer in p.subject.inactive then 1 else 2
  {}

  ghost predicate InOrder(c: Context, x: Row, y: Row) {
    Part(c, x) < Part(c, y) || (Part(c, x) == Part(c, y) && Le(x.peer, y.peer))
  }

  /** The part of a concatenation that a position lies in. */
  function Third(a: seq<string>, b: seq<string>, i: nat): nat {
    if i < |a| then 0 else if i < |a| + |b| then 1 else 2
  }

  lemma SortedParts(a: seq<string>, b: seq<string>, c: seq<string>, i: nat, j: nat)
    requires Sorted(a) && Sorted(b) && Sorted(c) && i < j < |a + b + c|
    ensures Third(a, b, i) <= Third(a, b, j)
    ensures Third(a, b, i) == Third(a, b, j) ==> Le((a + b + c)[i], (a + b + c)[j])
  {}

  lemma ThirdHolds(a: seq<string>, b: seq<string>, c: seq<string>, i: nat)
    requires i < |a + b + c|
    ensures var x := (a + b + c)[i]; match Third(a, b, i) case 0 => x in a case 1 => x in b case _ => x in c
  {}

  /** The measured peers, the deactivated ones without a session, and the missing ones. */
  lemma ThirdIsPart(c: Context, i: nat)
    requires i < |Order(PairOf(c))|
    ensures var p := PairOf(c);
            Part(c, RowOf(p)(Order(p)[i])) == Third(SortedOf(p.subject.peers.Keys), Sort(InactiveList(p.subject)), i)
  {
    var p := PairOf(c);
    var measured, inactive, missing := SortedOf(p.subject.peers.Keys), Sort(InactiveList(p.subject)), SortedOf(Missing(p));
    var peer := Order(p)[i];
    ThirdHolds(measured, inactive, missing, i);
    PartOf(c, peer);
    InactiveListed(p.subject, peer);
    assert peer in measured <==> peer in multiset(measured);
    assert peer in missing <==> peer in multiset(missing);
  }

  /** Peers with one session come first, then the deactivated ones, then the others, each part sorted. */
  lemma RowsInOrder(c: Context, i: nat, j: nat)
    requires i < j < |Rows(PairOf(c))|
    ensures InOrder(c, Rows(PairOf(c))[i], Rows(PairOf(c))[j])
  {
    var p := PairOf(c);
    ThirdIsPart(c, i);
    ThirdIsPart(c, j);
    SortIsSorted(InactiveList(p.subject));
    SortedParts(SortedOf(p.subject.peers.Keys), Sort(InactiveList(p.subject)), SortedOf(Missing(p)), i, j);
    RowPeer(p, i);
    RowPeer(p, j);
  }

  lemma RowPeer(p: Pair, i: nat)
    requires i < |Order(p)|
    ensures Rows(p)[i] == RowOf(p)(Order(p)[i]) && Rows(p)[i].peer == Order(p)[i]
  {}
}
