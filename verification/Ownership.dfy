/** Who gets a measured record: models/scope.py selects device facts per service scope, and
engine.py lists what no scope claims.  The claim proved here is that nothing measured vanishes. */
module Ownership {
  import opened Wrappers
  import opened Seqs

  // ----- Scopes and records -----

  datatype RouteIntent = RouteIntent(rib: string, prefix: string, protocol: Option<string>, routeType: Option<string>)

  datatype Scope = Scope(serviceType: string, serviceSubtype: string,
                         interfaces: seq<string>, physical: seq<string>, instances: seq<string>,
                         neighbors: seq<string>, inactive: seq<string>, routes: seq<RouteIntent>)

  datatype Bgp = Bgp(address: Option<string>, instance: Option<string>, state: Option<string>, localInterface: Option<string>)

  datatype Bfd = Bfd(neighbor: Option<string>, iface: Option<string>, state: Option<string>)

  datatype Route = Route(intent: RouteIntent, nextHops: seq<string>, active: Option<bool>)

  /** `str()` of a field that may be missing. */
  function Text(o: Option<string>): string {
    if o.None? then "None" else o.value
  }

  predicate MatchesInterface(s: Scope, name: string) {
    name in s.interfaces || name in s.physical
  }

  /** The instance a service has its BGP peers in, None for the master instance. */
  function BgpInstance(s: Scope): Option<string> {
    if s.serviceType == "IPVPN" && s.instances != [] then Some(s.instances[0]) else None
  }

  predicate OwnsBgp(s: Scope, r: Bgp) {
    (Text(r.address) in s.neighbors || Text(r.address) in s.inactive) && r.instance == BgpInstance(s)
  }

  /** Single-hop sessions name their interface, multihop ones do not. */
  predicate SingleHop(r: Bfd) {
    r.iface.Some? && r.iface.value != ""
  }

  predicate OwnsBfd(s: Scope, r: Bfd, all: seq<Bfd>) {
    var neighbor := Text(r.neighbor);
    if SingleHop(r) then
      MatchesInterface(s, r.iface.value) &&
      (neighbor in s.neighbors || (s.serviceType == "Core" && s.serviceSubtype == "transit"))
    else
      neighbor in s.neighbors &&
      !exists o | o in all :: SingleHop(o) && Text(o.neighbor) == neighbor && MatchesInterface(s, o.iface.value)
  }

  type RouteKey = (string, string, string)

  /** (rib, prefix, protocol); the intent from the configuration may say `route_type` instead, and
      neither means static. */
  function KeyOf(r: RouteIntent): RouteKey {
    (r.rib, r.prefix, if r.protocol.Some? then r.protocol.value else if r.routeType.Some? then r.routeType.value else "static")
  }

  // ----- Records by key -----

  function Group<T>(records: seq<T>, key: T -> string, k: string): seq<T> {
    Filter(records, r => key(r) == k)
  }

  lemma GroupMembers<T>(records: seq<T>, key: T -> string, k: string)
    ensures forall r :: r in Group(records, key, k) <==> r in records && key(r) == k
  {
    FilterMembers(records, r => key(r) == k);
  }

  lemma GroupCounts<T>(records: seq<T>, key: T -> string, k: string, x: T)
    ensures multiset(Group(records, key, k))[x] == if key(x) == k then multiset(records)[x] else 0
  {
    FilterCounts(records, r => key(r) == k, x);
  }

  function Keys<T>(records: seq<T>, key: T -> string): set<string> {
    set i | 0 <= i < |records| :: key(records[i])
  }

  /** The records whose key is unambiguous, by key. */
  function View<T>(records: seq<T>, key: T -> string): map<string, T> {
    map k | k in Keys(records, key) && |Group(records, key, k)| == 1 :: Group(records, key, k)[0]
  }

  /** How many records share each ambiguous key. */
  function Ambiguous<T>(records: seq<T>, key: T -> string): map<string, nat> {
    map k | k in Keys(records, key) && |Group(records, key, k)| > 1 :: |Group(records, key, k)|
  }

  method ByKey<T>(records: seq<T>, key: T -> string) returns (view: map<string, T>, ambiguous: map<string, nat>)
    ensures view == View(records, key) && ambiguous == Ambiguous(records, key)
  {
    var grouped: map<string, seq<T>> := map[];
    for i := 0 to |records|
      invariant grouped.Keys == Keys(records[..i], key)
      invariant forall k | k in grouped :: grouped[k] == Group(records[..i], key, k)
    {
      GroupStep(records[..i], key, records[i]);
      assert records[..i + 1] == records[..i] + [records[i]];
      var k := key(records[i]);
      grouped := grouped[k := (if k in grouped then grouped[k] else []) + [records[i]]];
    }
    assert records[..|records|] == records;
    view := map k | k in grouped && |grouped[k]| == 1 :: grouped[k][0];
    ambiguous := map k | k in grouped && |grouped[k]| > 1 :: |grouped[k]|;
  }

  lemma GroupStep<T>(records: seq<T>, key: T -> string, r: T)
    ensures forall k :: Group(records + [r], key, k) == Group(records, key, k) + if key(r) == k then [r] else []
    ensures forall k | k !in Keys(records, key) :: Group(records, key, k) == []
    ensures Keys(records + [r], key) == Keys(records, key) + {key(r)}
  {
    assert (records + [r])[..|records|] == records;
    assert forall i | 0 <= i < |records| :: (records + [r])[i] == records[i];
    forall k | k !in Keys(records, key) ensures Group(records, key, k) == [] {
      FilterNone(records, x => key(x) == k);
    }
    forall k | k in Keys(records + [r], key) ensures k in Keys(records, key) + {key(r)} {
      var i :| 0 <= i < |records + [r]| && key((records + [r])[i]) == k;
    }
    forall k | k in Keys(records, key) + {key(r)} ensures k in Keys(records + [r], key) {
      if k == key(r) {
        assert (records + [r])[|records|] == r;
      } else {
        var i :| 0 <= i < |records| && key(records[i]) == k;
        assert (records + [r])[i] == records[i];
      }
    }
  }

  // ----- Conservation inside one scope -----

  ghost function Sum(m: map<string, nat>): nat {
    if m == map[] then 0 else var k :| k in m; m[k] + Sum(m - {k})
  }

  lemma {:induction false} SumRemove(m: map<string, nat>, k: string)
    requires k in m
    ensures Sum(m) == m[k] + Sum(m - {k})
  {
    var j :| j in m && Sum(m) == m[j] + Sum(m - {j});
    if j != k {
      SumRemove(m - {j}, k);
      SumRemove(m - {k}, j);
      assert m - {j} - {k} == m - {k} - {j};
    }
  }

  lemma SumUpdate(m: map<string, nat>, k: string, n: nat)
    ensures Sum(m[k := n]) == Sum(m - {k}) + n
    ensures k in m ==> Sum(m - {k}) == Sum(m) - m[k]
    ensures k !in m ==> Sum(m - {k}) == Sum(m)
  {
    SumRemove(m[k := n], k);
    assert m[k := n] - {k} == m - {k};
    if k in m {
      SumRemove(m, k);
    } else {
      assert m - {k} == m;
    }
  }

  ghost function Sizes<T>(records: seq<T>, key: T -> string): map<string, nat> {
    map k | k in Keys(records, key) :: |Group(records, key, k)|
  }

  lemma SizesStep<T>(records: seq<T>, key: T -> string, r: T)
    ensures Sizes(records + [r], key) == Sizes(records, key)[key(r) := |Group(records, key, key(r))| + 1]
    ensures key(r) in Sizes(records, key) ==> Sizes(records, key)[key(r)] == |Group(records, key, key(r))|
    ensures key(r) !in Sizes(records, key) ==> |Group(records, key, key(r))| == 0
  {
    GroupStep(records, key, r);
    var old', new' := Sizes(records, key), Sizes(records + [r], key);
    assert new'.Keys == old'.Keys + {key(r)};
    forall k | k in new' ensures new'[k] == old'[key(r) := |Group(records, key, key(r))| + 1][k] {
      assert Group(records + [r], key, k) == Group(records, key, k) + if key(r) == k then [r] else [];
    }
  }

  lemma {:induction false} SizesAddUp<T>(records: seq<T>, key: T -> string)
    ensures Sum(Sizes(records, key)) == |records|
  {
    if records == [] {
      assert Sizes(records, key) == map[];
    } else {
      var before, r := records[..|records| - 1], records[|records| - 1];
      SizesAddUp(before, key);
      assert records == before + [r];
      SizesStep(before, key, r);
      SumUpdate(Sizes(before, key), key(r), |Group(before, key, key(r))| + 1);
    }
  }

  lemma WithoutOne(m: map<string, nat>, j: string)
    requires j in m && m[j] >= 1
    ensures
      var rest := m - {j};
      var ones, more := set k | k in m && m[k] == 1, map k | k in m && m[k] > 1 :: m[k];
      var ones', more' := set k | k in rest && rest[k] == 1, map k | k in rest && rest[k] > 1 :: rest[k];
      if m[j] == 1 then ones == ones' + {j} && j !in ones' && more == more' else ones == ones' && j in more && more - {j} == more'
  {}

  /** A map of positive numbers adds up to its ones plus its larger entries. */
  lemma {:induction false} OnesAndMore(m: map<string, nat>)
    requires forall k | k in m :: m[k] >= 1
    ensures Sum(m) == |set k | k in m && m[k] == 1| + Sum(map k | k in m && m[k] > 1 :: m[k])
    decreases |m|
  {
    if m != map[] {
      var j :| j in m;
      SumRemove(m, j);
      OnesAndMore(m - {j});
      WithoutOne(m, j);
      if m[j] > 1 {
        SumRemove(map k | k in m && m[k] > 1 :: m[k], j);
      }
    }
  }

  /** The view's size plus all ambiguous counts is the number of selected records. */
  ghost predicate AllAccounted<T>(records: seq<T>, key: T -> string) {
    |View(records, key)| + Sum(Ambiguous(records, key)) == |records|
  }

  lemma ViewPlusAmbiguousIsAll<T>(records: seq<T>, key: T -> string)
    ensures AllAccounted(records, key)
  {
    var sizes := Sizes(records, key);
    forall k | k in sizes ensures sizes[k] >= 1 {
      var i :| 0 <= i < |records| && key(records[i]) == k;
      GroupMembers(records, key, k);
      assert records[i] in Group(records, key, k);
    }
    SizesAddUp(records, key);
    OnesAndMore(sizes);
    assert (set k | k in sizes && sizes[k] == 1) == View(records, key).Keys;
    assert (map k | k in sizes && sizes[k] > 1 :: sizes[k]) == Ambiguous(records, key);
    assert |View(records, key)| == |View(records, key).Keys|;
  }

  /** The record itself is in the view, or its key is counted as ambiguous, never both. */
  ghost predicate ShownIn<T>(records: seq<T>, key: T -> string, r: T) {
    var k, view, ambiguous := key(r), View(records, key), Ambiguous(records, key);
    if k in view then view[k] == r && k !in ambiguous else k in ambiguous && ambiguous[k] >= 2
  }

  lemma ShownOrAmbiguous<T>(records: seq<T>, key: T -> string, r: T)
    requires r in records
    ensures ShownIn(records, key, r)
  {
    GroupMembers(records, key, key(r));
    assert r in Group(records, key, key(r));
    var i :| 0 <= i < |records| && records[i] == r;
  }

  // ----- BGP over all scopes -----

  function SelectBgp(s: Scope, facts: seq<Bgp>): (selected: seq<Bgp>)
    ensures forall r :: r in selected <==> r in facts && OwnsBgp(s, r)
  {
    var p := (r: Bgp) => OwnsBgp(s, r);
    FilterMembers(facts, p);
    Filter(facts, p)
  }

  /** Which record is whose: by its address, configured or deactivated, and by its instance, which is the
      first one of an IPVPN service and none of any other. */
  predicate BgpOwner(s: Scope, r: Bgp) {
    var address := match r.address case Some(a) => a case None => "None";
    && (address in s.neighbors || address in s.inactive)
    && match r.instance
       case Some(i) => s.serviceType == "IPVPN" && |s.instances| > 0 && i == s.instances[0]
       case None => s.serviceType != "IPVPN" || |s.instances| == 0
  }

  /** A scope selects exactly what it owns, each record as often as the box reported it. */
  lemma SelectBgpExactly(s: Scope, facts: seq<Bgp>, x: Bgp)
    ensures OwnsBgp(s, x) <==> BgpOwner(s, x)
    ensures multiset(SelectBgp(s, facts))[x] == if BgpOwner(s, x) then multiset(facts)[x] else 0
  {
    FilterCounts(facts, (r: Bgp) => OwnsBgp(s, r), x);
  }

  function BgpKey(): Bgp -> string {
    (r: Bgp) => Text(r.address)
  }

  function ClaimedBgp(scopes: seq<Scope>): Bgp -> bool {
    (r: Bgp) => exists s | s in scopes :: OwnsBgp(s, r)
  }

  function UnclaimedBgp(scopes: seq<Scope>): Bgp -> bool {
    (r: Bgp) => !exists s | s in scopes :: OwnsBgp(s, r)
  }

  function UnassignedBgp(facts: seq<Bgp>, scopes: seq<Scope>): (listed: seq<Bgp>)
    ensures forall r :: r in listed <==> r in facts && !exists s | s in scopes :: OwnsBgp(s, r)
  {
    FilterMembers(facts, UnclaimedBgp(scopes));
    Filter(facts, UnclaimedBgp(scopes))
  }

  /** A claiming scope shows the record itself or counts its address as ambiguous. */
  lemma BgpShownOrAmbiguous(facts: seq<Bgp>, s: Scope, r: Bgp)
    requires r in SelectBgp(s, facts)
    ensures ShownIn(SelectBgp(s, facts), BgpKey(), r)
  {
    ShownOrAmbiguous(SelectBgp(s, facts), BgpKey(), r);
  }

  /** For a whole-box snapshot every BGP record is claimed by a scope, which shows it or counts it
      as ambiguous, or is listed as unassigned, and never both. */
  lemma NoBgpRecordVanishes(facts: seq<Bgp>, scopes: seq<Scope>)
    ensures multiset(Filter(facts, ClaimedBgp(scopes))) + multiset(UnassignedBgp(facts, scopes)) == multiset(facts)
    ensures forall r | r in facts :: r in UnassignedBgp(facts, scopes) <==> forall s | s in scopes :: r !in SelectBgp(s, facts)
    ensures forall s, r | s in scopes && r in SelectBgp(s, facts) :: ShownIn(SelectBgp(s, facts), BgpKey(), r)
    ensures forall s | s in scopes :: AllAccounted(SelectBgp(s, facts), BgpKey())
  {
    FilterSplit(facts, ClaimedBgp(scopes), UnclaimedBgp(scopes));
    forall s | s in scopes {
      ViewPlusAmbiguousIsAll(SelectBgp(s, facts), BgpKey());
    }
    forall s, r | s in scopes && r in SelectBgp(s, facts) {
      BgpShownOrAmbiguous(facts, s, r);
    }
  }

  // ----- BFD over all scopes -----

  function SelectBfd(s: Scope, facts: seq<Bfd>): (selected: seq<Bfd>)
    ensures forall r :: r in selected <==> r in facts && OwnsBfd(s, r, facts)
  {
    var p := (r: Bfd) => OwnsBfd(s, r, facts);
    FilterMembers(facts, p);
    Filter(facts, p)
  }

  predicate HasInterface(s: Scope, name: string) {
    name in s.interfaces || name in s.physical
  }

  /** A session on an interface belongs to the service there that configures the neighbor, or is a Core
      transit; one without to the services that configure the neighbor and have no session of their own
      with it on an interface. */
  predicate BfdOwner(s: Scope, r: Bfd, all: seq<Bfd>) {
    var neighbor := match r.neighbor case Some(n) => n case None => "None";
    match r.iface
    case Some(i) =>
      if i == "" then neighbor in s.neighbors && NoneOnInterface(s, neighbor, all)
      else HasInterface(s, i) && (neighbor in s.neighbors || (s.serviceType == "Core" && s.serviceSubtype == "transit"))
    case None => neighbor in s.neighbors && NoneOnInterface(s, neighbor, all)
  }

  predicate NoneOnInterface(s: Scope, neighbor: string, all: seq<Bfd>) {
    forall o | o in all && o.iface.Some? && o.iface.value != "" && HasInterface(s, o.iface.value) ::
      neighbor != match o.neighbor case Some(n) => n case None => "None"
  }

  lemma SelectBfdExactly(s: Scope, facts: seq<Bfd>, x: Bfd)
    ensures OwnsBfd(s, x, facts) <==> BfdOwner(s, x, facts)
    ensures multiset(SelectBfd(s, facts))[x] == if BfdOwner(s, x, facts) then multiset(facts)[x] else 0
  {
    FilterCounts(facts, (r: Bfd) => OwnsBfd(s, r, facts), x);
  }

  function BfdKey(): Bfd -> string {
    (r: Bfd) => Text(r.neighbor)
  }

  /** Internal peers of a Core loopback are measured by no check, so that scope does not count. */
  predicate CoreLoopback(s: Scope) {
    s.serviceType == "Core" && s.serviceSubtype == "loopback"
  }

  function ClaimedBfd(scopes: seq<Scope>, facts: seq<Bfd>): Bfd -> bool {
    (r: Bfd) => exists s | s in scopes :: !CoreLoopback(s) && OwnsBfd(s, r, facts)
  }

  function UnclaimedBfd(scopes: seq<Scope>, facts: seq<Bfd>): Bfd -> bool {
    (r: Bfd) => !exists s | s in scopes :: !CoreLoopback(s) && OwnsBfd(s, r, facts)
  }

  function UnassignedBfd(facts: seq<Bfd>, scopes: seq<Scope>): (listed: seq<Bfd>)
    ensures forall r :: r in listed <==> r in facts && !exists s | s in scopes :: !CoreLoopback(s) && OwnsBfd(s, r, facts)
  {
    FilterMembers(facts, UnclaimedBfd(scopes, facts));
    Filter(facts, UnclaimedBfd(scopes, facts))
  }

  lemma BfdShownOrAmbiguous(facts: seq<Bfd>, s: Scope, r: Bfd)
    requires r in SelectBfd(s, facts)
    ensures ShownIn(SelectBfd(s, facts), BfdKey(), r)
  {
    ShownOrAmbiguous(SelectBfd(s, facts), BfdKey(), r);
  }

  /** A BFD record is listed as unassigned exactly when no scope other than a Core loopback claims
      it; a claiming scope shows it or counts it as ambiguous. */
  lemma NoBfdRecordVanishes(facts: seq<Bfd>, scopes: seq<Scope>)
    ensures multiset(Filter(facts, ClaimedBfd(scopes, facts))) + multiset(UnassignedBfd(facts, scopes)) == multiset(facts)
    ensures forall r | r in facts :: r in UnassignedBfd(facts, scopes) <==> forall s | s in scopes && !CoreLoopback(s) :: r !in SelectBfd(s, facts)
    ensures forall s, r | s in scopes && r in SelectBfd(s, facts) :: ShownIn(SelectBfd(s, facts), BfdKey(), r)
    ensures forall s | s in scopes :: AllAccounted(SelectBfd(s, facts), BfdKey())
  {
    FilterSplit(facts, ClaimedBfd(scopes, facts), UnclaimedBfd(scopes, facts));
    forall s | s in scopes {
      ViewPlusAmbiguousIsAll(SelectBfd(s, facts), BfdKey());
    }
    forall s, r | s in scopes && r in SelectBfd(s, facts) {
      BfdShownOrAmbiguous(facts, s, r);
    }
  }

  /** One scope never mixes single-hop and multihop sessions of one neighbor. */
  lemma NeverMixesHops(s: Scope, facts: seq<Bfd>, a: Bfd, b: Bfd)
    requires a in SelectBfd(s, facts) && b in SelectBfd(s, facts) && Text(a.neighbor) == Text(b.neighbor)
    ensures SingleHop(a) == SingleHop(b)
  {}

  /** The exception is real: a multihop session of a Core loopback peer is selected by that scope
      and listed as unassigned as well. */
  lemma CoreLoopbackSessionShowsTwice()
    ensures
      var r := Bfd(Some("10.0.0.1"), None, Some("Up"));
      var s := Scope("Core", "loopback", ["lo0.0"], [], [], ["10.0.0.1"], [], []);
      r in SelectBfd(s, [r]) && r in UnassignedBfd([r], [s])
  {}

  // ----- Routes over all scopes -----

  predicate Wants(s: Scope, k: RouteKey) {
    exists i | i in s.routes :: KeyOf(i) == k
  }

  /** The protocol a route is configured or measured with. */
  function ProtocolOf(r: RouteIntent): string {
    match r
    case RouteIntent(_, _, Some(protocol), _) => protocol
    case RouteIntent(_, _, None, Some(kind)) => kind
    case RouteIntent(_, _, None, None) => "static"
  }

  /** The configuration of the scope has a route to the same prefix, in the same table and protocol. */
  predicate RouteOwner(s: Scope, r: Route) {
    exists i | i in s.routes :: i.rib == r.intent.rib && i.prefix == r.intent.prefix && ProtocolOf(i) == ProtocolOf(r.intent)
  }

  lemma WantsExactly(s: Scope, r: Route)
    ensures Wants(s, KeyOf(r.intent)) <==> RouteOwner(s, r)
  {
    forall i ensures KeyOf(i) == KeyOf(r.intent) <==> i.rib == r.intent.rib && i.prefix == r.intent.prefix && ProtocolOf(i) == ProtocolOf(r.intent) {}
  }

  /** The routes of a scope by (rib, prefix, protocol); a later record with the same key replaces
      the earlier one. */
  function RouteView(s: Scope, facts: seq<Route>): map<RouteKey, Route> {
    if facts == [] then map[]
    else
      var view, r := RouteView(s, facts[..|facts| - 1]), facts[|facts| - 1];
      if Wants(s, KeyOf(r.intent)) then view[KeyOf(r.intent) := r] else view
  }

  method SelectRoutes(s: Scope, facts: seq<Route>) returns (view: map<RouteKey, Route>)
    ensures view == RouteView(s, facts)
  {
    var wanted := set i | i in s.routes :: KeyOf(i);
    view := map[];
    for n := 0 to |facts|
      invariant view == RouteView(s, facts[..n])
    {
      assert facts[..n + 1][..n] == facts[..n];
      var key := KeyOf(facts[n].intent);
      if key in wanted {
        view := view[key := facts[n]];
      }
    }
    assert facts[..|facts|] == facts;
  }

  function UnassignedRoutes(facts: seq<Route>, scopes: seq<Scope>): (listed: seq<Route>)
    ensures forall r :: r in listed <==> r in facts && !exists s | s in scopes :: Wants(s, KeyOf(r.intent))
  {
    var p := (r: Route) => !exists s | s in scopes :: Wants(s, KeyOf(r.intent));
    FilterMembers(facts, p);
    Filter(facts, p)
  }

  function WantedRoutes(s: Scope, facts: seq<Route>): (wanted: seq<Route>)
    ensures forall r :: r in wanted <==> r in facts && Wants(s, KeyOf(r.intent))
  {
    var p := (r: Route) => Wants(s, KeyOf(r.intent));
    FilterMembers(facts, p);
    Filter(facts, p)
  }

  ghost predicate DistinctKeys(routes: seq<Route>) {
    forall i, j | 0 <= i < j < |routes| :: KeyOf(routes[i].intent) != KeyOf(routes[j].intent)
  }

  /** The view holds exactly the wanted keys, each with a record of that key. */
  lemma {:induction false} RouteViewShows(s: Scope, facts: seq<Route>)
    ensures var view, wanted := RouteView(s, facts), WantedRoutes(s, facts);
      && (forall r | r in wanted :: KeyOf(r.intent) in view)
      && (forall k | k in view :: view[k] in wanted && KeyOf(view[k].intent) == k)
  {
    if facts != [] {
      var before, r := facts[..|facts| - 1], facts[|facts| - 1];
      RouteViewShows(s, before);
      assert facts == before + [r];
      var view, after := RouteView(s, before), RouteView(s, facts);
      forall k | k in after ensures after[k] in WantedRoutes(s, facts) && KeyOf(after[k].intent) == k {
        if after[k] != r {
          assert k in view && after[k] == view[k];
        }
      }
    }
  }

  /** Of several records of one wanted key the last one is shown. */
  lemma {:induction false} LastRecordIsShown(s: Scope, facts: seq<Route>, i: nat)
    requires i < |facts| && RouteOwner(s, facts[i])
    requires forall j | i < j < |facts| :: KeyOf(facts[j].intent) != KeyOf(facts[i].intent)
    ensures var view := RouteView(s, facts); KeyOf(facts[i].intent) in view && view[KeyOf(facts[i].intent)] == facts[i]
  {
    WantsExactly(s, facts[i]);
    if i < |facts| - 1 {
      LastRecordIsShown(s, facts[..|facts| - 1], i);
    }
  }

  /** Nothing is lost just when the wanted keys are distinct. */
  lemma {:induction false} RouteViewSize(s: Scope, facts: seq<Route>)
    ensures |RouteView(s, facts)| <= |WantedRoutes(s, facts)|
    ensures |RouteView(s, facts)| == |WantedRoutes(s, facts)| <==> DistinctKeys(WantedRoutes(s, facts))
  {
    if facts != [] {
      RouteViewSize(s, facts[..|facts| - 1]);
      if Wants(s, KeyOf(facts[|facts| - 1].intent)) {
        WantedRouteCounts(s, facts);
      } else {
        Snoc(WantedRoutes(s, facts[..|facts| - 1]), facts[|facts| - 1]);
      }
    }
  }

  lemma ViewedIsWanted(s: Scope, facts: seq<Route>, k: RouteKey)
    requires k in RouteView(s, facts)
    ensures RouteView(s, facts)[k] in WantedRoutes(s, facts) && KeyOf(RouteView(s, facts)[k].intent) == k
  {
    RouteViewShows(s, facts);
  }

  lemma WantedRouteCounts(s: Scope, facts: seq<Route>)
    requires facts != [] && Wants(s, KeyOf(facts[|facts| - 1].intent))
    ensures
      var before, r := facts[..|facts| - 1], facts[|facts| - 1];
      var view, w := RouteView(s, before), WantedRoutes(s, before);
      && WantedRoutes(s, facts) == w + [r]
      && |RouteView(s, facts)| == |view| + (if KeyOf(r.intent) in view then 0 else 1)
      && (DistinctKeys(w + [r]) <==> DistinctKeys(w) && KeyOf(r.intent) !in view)
  {
    var before, r := facts[..|facts| - 1], facts[|facts| - 1];
    var view, w, k := RouteView(s, before), WantedRoutes(s, before), KeyOf(r.intent);
    RouteViewShows(s, before);
    AppendKey(w, r);
    if k in view {
      ViewedIsWanted(s, before, k);
      assert view[k := r].Keys == view.Keys;
    } else {
      assert view[k := r].Keys == view.Keys + {k};
    }
    assert |view[k := r]| == |view[k := r].Keys| && |view| == |view.Keys|;
  }

  lemma AppendKey(w: seq<Route>, r: Route)
    ensures DistinctKeys(w + [r]) <==> DistinctKeys(w) && forall q | q in w :: KeyOf(q.intent) != KeyOf(r.intent)
  {
    var v := w + [r];
    assert v[|w|] == r && forall i | 0 <= i < |w| :: v[i] == w[i] && w[i] in w;
    if DistinctKeys(v) {
      forall q | q in w ensures KeyOf(q.intent) != KeyOf(r.intent) {
        var i :| 0 <= i < |w| && w[i] == q;
        assert KeyOf(v[i].intent) != KeyOf(v[|w|].intent);
      }
    }
  }

  /** Every route is wanted by a scope or listed as unassigned, and a scope shows all the routes it
      wants exactly when no two of them share (rib, prefix, protocol). */
  lemma NoRouteVanishes(facts: seq<Route>, scopes: seq<Scope>)
    ensures forall r | r in facts :: r in UnassignedRoutes(facts, scopes) <==> forall s | s in scopes :: r !in WantedRoutes(s, facts)
    ensures forall s | s in scopes :: |RouteView(s, facts)| == |WantedRoutes(s, facts)| <==> DistinctKeys(WantedRoutes(s, facts))
    ensures forall s | s in scopes && DistinctKeys(WantedRoutes(s, facts)) :: RouteView(s, facts).Values == set r | r in WantedRoutes(s, facts)
  {
    forall s | s in scopes
      ensures |RouteView(s, facts)| == |WantedRoutes(s, facts)| <==> DistinctKeys(WantedRoutes(s, facts))
      ensures DistinctKeys(WantedRoutes(s, facts)) ==> RouteView(s, facts).Values == set r | r in WantedRoutes(s, facts)
    {
      RouteViewShows(s, facts);
      RouteViewSize(s, facts);
      var view, wanted := RouteView(s, facts), WantedRoutes(s, facts);
      if DistinctKeys(wanted) {
        forall r | r in wanted ensures r in view.Values {
          var k := KeyOf(r.intent);
          assert k in view && view[k] in wanted && KeyOf(view[k].intent) == k;
          var i :| 0 <= i < |wanted| && wanted[i] == r;
          var j :| 0 <= j < |wanted| && wanted[j] == view[k];
        }
      }
    }
  }
}
