/** The order of blocks in the report (engine.py): L2 blocks move behind their L3 block, and
services are grouped under the physical port they run on. */
module ReportOrder {
  import opened Wrappers
  import opened Seqs

  datatype ScopeLink = ScopeLink(l3: string, l2: string, l3Context: string, irb: string, l2Interface: string, l2Instance: string)

  /** One L2 side as its L3 side lists it. */
  datatype Peer = Peer(id: string, iface: string, instance: string)

  datatype Role = L2(peer: string, peerInterface: string, peerInstance: string) | L3(members: seq<Peer>)

  datatype Result = Result(id: string, layer1: bool, link: Option<Role>, interfaces: seq<string>, physical: seq<string>)

  ghost predicate DistinctIds(results: seq<Result>) {
    forall i, j | 0 <= i < j < |results| :: results[i].id != results[j].id
  }

  lemma SameIdSameResult(results: seq<Result>, a: Result, b: Result)
    requires DistinctIds(results) && a in results && b in results && a.id == b.id
    ensures a == b
  {}

  // ----- Links -----

  /** An L2 side is linked at most once, and no scope is on both sides (scoping/linker). */
  ghost predicate WellLinked(links: seq<ScopeLink>) {
    && (forall i, j | 0 <= i < j < |links| :: links[i].l2 != links[j].l2)
    && (forall i, j | 0 <= i < |links| && 0 <= j < |links| :: links[i].l2 != links[j].l3)
  }

  function PeersOf(links: seq<ScopeLink>, l3: string): seq<string> {
    if links == [] then []
    else PeersOf(links[..|links| - 1], l3) + if links[|links| - 1].l3 == l3 then [links[|links| - 1].l2] else []
  }

  function MembersOf(links: seq<ScopeLink>, l3: string): seq<Peer> {
    if links == [] then []
    else MembersOf(links[..|links| - 1], l3) + if links[|links| - 1].l3 == l3 then [MemberFor(links[|links| - 1])] else []
  }

  function MemberFor(l: ScopeLink): Peer {
    Peer(l.l2, l.l2Interface, l.l2Instance)
  }

  function RoleFor(l: ScopeLink): Role {
    L2(l.l3, l.irb, if l.l3Context == "master" then "inet.0" else l.l3Context)
  }

  function IdsOf(members: seq<Peer>): seq<string> {
    if members == [] then [] else IdsOf(members[..|members| - 1]) + [members[|members| - 1].id]
  }

  lemma {:induction false} MembersHaveIds(links: seq<ScopeLink>, l3: string)
    ensures IdsOf(MembersOf(links, l3)) == PeersOf(links, l3)
  {
    if links != [] {
      var before, last := links[..|links| - 1], links[|links| - 1];
      MembersHaveIds(before, l3);
      if last.l3 == l3 {
        assert (MembersOf(before, l3) + [MemberFor(last)])[..|MembersOf(before, l3)|] == MembersOf(before, l3);
      } else {
        assert MembersOf(links, l3) == MembersOf(before, l3);
      }
    }
  }

  function LinkOf(links: seq<ScopeLink>, l2: string): Option<ScopeLink> {
    if links == [] then None
    else if links[|links| - 1].l2 == l2 then Some(links[|links| - 1])
    else LinkOf(links[..|links| - 1], l2)
  }

  function PeerOf(links: seq<ScopeLink>, l2: string): Option<string> {
    if LinkOf(links, l2).Some? then Some(LinkOf(links, l2).value.l3) else None
  }

  /** What the links say about one scope: an L2 side names its L3 side, an L3 side lists all its L2
      sides. */
  function PayloadOf(links: seq<ScopeLink>, id: string): Option<Role> {
    if LinkOf(links, id).Some? then Some(RoleFor(LinkOf(links, id).value))
    else if MembersOf(links, id) != [] then Some(L3(MembersOf(links, id)))
    else None
  }

  ghost predicate Describes(payloads: map<string, Role>, links: seq<ScopeLink>) {
    forall id :: (if id in payloads then Some(payloads[id]) else None) == PayloadOf(links, id)
  }

  method LinkPayloads(links: seq<ScopeLink>) returns (payloads: map<string, Role>)
    requires WellLinked(links)
    ensures Describes(payloads, links)
  {
    payloads := map[];
    for n := 0 to |links|
      invariant Describes(payloads, links[..n])
    {
      NotYetL2Side(links, n);
      payloads := AddLink(payloads, links[..n], links[n]);
      assert links[..n + 1] == links[..n] + [links[n]];
    }
    assert links[..|links|] == links;
  }

  /** Both sides of one more link. */
  method AddLink(payloads: map<string, Role>, ghost done: seq<ScopeLink>, l: ScopeLink) returns (after: map<string, Role>)
    requires Describes(payloads, done) && LinkOf(done, l.l3).None? && l.l2 != l.l3
    ensures Describes(after, done + [l])
  {
    LinkAdded(payloads, done, l);
    var l3 := if l.l3 in payloads then payloads[l.l3] else L3([]);
    after := payloads[l.l3 := L3(l3.members + [MemberFor(l)])];
    after := after[l.l2 := RoleFor(l)];
  }

  lemma NotYetL2Side(links: seq<ScopeLink>, n: nat)
    requires WellLinked(links) && n < |links|
    ensures LinkOf(links[..n], links[n].l3).None? && links[n].l2 != links[n].l3
  {
    assert forall i | 0 <= i < n :: links[..n][i] == links[i];
    NotAnL2Side(links[..n], links[n].l3);
  }

  lemma LinkAdded(before: map<string, Role>, done: seq<ScopeLink>, l: ScopeLink)
    requires Describes(before, done) && LinkOf(done, l.l3).None? && l.l2 != l.l3
    ensures var l3 := if l.l3 in before then before[l.l3] else L3([]);
            l3.L3? && Describes(before[l.l3 := L3(l3.members + [MemberFor(l)])][l.l2 := RoleFor(l)], done + [l])
  {
    var all := done + [l];
    assert all[..|done|] == done && all[|done|] == l;
    assert (if l.l3 in before then Some(before[l.l3]) else None) == PayloadOf(done, l.l3);
    var l3 := if l.l3 in before then before[l.l3] else L3([]);
    var after := before[l.l3 := L3(l3.members + [MemberFor(l)])][l.l2 := RoleFor(l)];
    forall id ensures (if id in after then Some(after[id]) else None) == PayloadOf(all, id) {
      assert LinkOf(all, id) == if l.l2 == id then Some(l) else LinkOf(done, id);
      assert MembersOf(all, id) == MembersOf(done, id) + if l.l3 == id then [MemberFor(l)] else [];
      assert (if id in before then Some(before[id]) else None) == PayloadOf(done, id);
      if id != l.l2 && id != l.l3 {
        assert MembersOf(all, id) == MembersOf(done, id);
      }
    }
  }

  lemma {:induction false} NotAnL2Side(links: seq<ScopeLink>, id: string)
    requires forall i | 0 <= i < |links| :: links[i].l2 != id
    ensures LinkOf(links, id).None?
  {
    if links != [] {
      NotAnL2Side(links[..|links| - 1], id);
    }
  }

  // ----- L2 behind L3 -----

  function Ids(results: seq<Result>): set<string> {
    set r | r in results :: r.id
  }

  /** A block that moves: an L2 side whose L3 side is in the results. */
  predicate Moves(ids: set<string>, r: Result) {
    r.link.Some? && r.link.value.L2? && r.link.value.peer in ids
  }

  function Followers(results: seq<Result>, id: string): seq<Result> {
    Filter(results, FollowerOf(Ids(results), id))
  }

  function FollowerOf(ids: set<string>, id: string): Result -> bool {
    (r: Result) => Moves(ids, r) && r.link.value.peer == id
  }

  function Emit(all: seq<Result>, done: seq<Result>): seq<Result> {
    if done == [] then []
    else
      var last := done[|done| - 1];
      Emit(all, done[..|done| - 1]) + if Moves(Ids(all), last) then [] else [last] + Followers(all, last.id)
  }

  function Reorder(results: seq<Result>): seq<Result> {
    Emit(results, results)
  }

  /** `after` holds the moving blocks seen so far by the id of their L3 block. */
  ghost predicate CollectedAfter(after: map<string, seq<Result>>, ids: set<string>, done: seq<Result>) {
    forall id :: (if id in after then after[id] else []) == Filter(done, FollowerOf(ids, id))
  }

  /** `moved` holds the ids of the moving blocks seen so far. */
  ghost predicate CollectedIds(moved: set<string>, ids: set<string>, done: seq<Result>) {
    forall id :: id in moved <==> exists r | r in done :: Moves(ids, r) && r.id == id
  }

  lemma CollectedStep(after: map<string, seq<Result>>, ids: set<string>, done: seq<Result>, r: Result)
    requires CollectedAfter(after, ids, done)
    ensures
      if Moves(ids, r) then
        var peer := r.link.value.peer;
        CollectedAfter(after[peer := (if peer in after then after[peer] else []) + [r]], ids, done + [r])
      else CollectedAfter(after, ids, done + [r])
  {
    var all := done + [r];
    assert all[..|done|] == done && all[|done|] == r;
    forall id ensures Filter(all, FollowerOf(ids, id)) == Filter(done, FollowerOf(ids, id)) + if Moves(ids, r) && r.link.value.peer == id then [r] else [] {}
  }

  lemma CollectedIdsStep(moved: set<string>, ids: set<string>, done: seq<Result>, r: Result)
    requires CollectedIds(moved, ids, done)
    ensures CollectedIds(if Moves(ids, r) then moved + {r.id} else moved, ids, done + [r])
  {
    assert forall x :: x in done + [r] <==> x in done || x == r;
  }

  method CollectFollowers(results: seq<Result>) returns (after: map<string, seq<Result>>, moved: set<string>)
    ensures CollectedAfter(after, Ids(results), results) && CollectedIds(moved, Ids(results), results)
  {
    after, moved := map[], {};
    var ids := Ids(results);
    for n := 0 to |results|
      invariant CollectedAfter(after, ids, results[..n]) && CollectedIds(moved, ids, results[..n])
    {
      var r := results[n];
      CollectedStep(after, ids, results[..n], r);
      CollectedIdsStep(moved, ids, results[..n], r);
      assert results[..n + 1] == results[..n] + [r];
      if Moves(ids, r) {
        var peer := r.link.value.peer;
        after := after[peer := (if peer in after then after[peer] else []) + [r]];
        moved := moved + {r.id};
      }
    }
    assert results[..|results|] == results;
  }

  lemma MovedById(moved: set<string>, results: seq<Result>, r: Result)
    requires DistinctIds(results) && r in results && CollectedIds(moved, Ids(results), results)
    ensures r.id in moved <==> Moves(Ids(results), r)
  {}

  method ReorderLinked(results: seq<Result>) returns (ordered: seq<Result>)
    requires DistinctIds(results)
    ensures ordered == Reorder(results)
  {
    var after, moved := CollectFollowers(results);
    forall r | r in results
      ensures r.id in moved <==> Moves(Ids(results), r)
      ensures (if r.id in after then after[r.id] else []) == Followers(results, r.id)
    {
      MovedById(moved, results, r);
    }
    ordered := EmitBlocks(results, after, moved);
  }

  /** The second pass: every block that stays, each with its followers. */
  method EmitBlocks(results: seq<Result>, after: map<string, seq<Result>>, moved: set<string>) returns (ordered: seq<Result>)
    requires forall r | r in results :: r.id in moved <==> Moves(Ids(results), r)
    requires forall r | r in results :: (if r.id in after then after[r.id] else []) == Followers(results, r.id)
    ensures ordered == Reorder(results)
  {
    ordered := [];
    for n := 0 to |results|
      invariant ordered == Emit(results, results[..n])
    {
      assert results[..n + 1][..n] == results[..n];
      var r := results[n];
      assert r in results;
      if r.id in moved {
        continue;
      }
      ordered := ordered + ([r] + if r.id in after then after[r.id] else []);
    }
    assert results[..|results|] == results;
  }

  /** No moving block waits for a block that moves itself. */
  ghost predicate NoChains(results: seq<Result>) {
    forall a, b | a in results && b in results && Moves(Ids(results), a) && a.link.value.peer == b.id :: !Moves(Ids(results), b)
  }

  function Stays(ids: set<string>): Result -> bool {
    (r: Result) => !Moves(ids, r)
  }

  /** Moving blocks whose L3 side stays and has been emitted. */
  function Emitted(ids: set<string>, done: seq<Result>): Result -> bool {
    (r: Result) => Moves(ids, r) && exists d | d in done :: !Moves(ids, d) && d.id == r.link.value.peer
  }

  lemma EmitMoved(all: seq<Result>, before: seq<Result>, last: Result)
    requires Moves(Ids(all), last)
    ensures Emit(all, before + [last]) == Emit(all, before)
    ensures Filter(before + [last], Stays(Ids(all))) == Filter(before, Stays(Ids(all)))
    ensures Filter(all, Emitted(Ids(all), before + [last])) == Filter(all, Emitted(Ids(all), before))
  {
    assert (before + [last])[..|before|] == before;
    FilterSame(all, Emitted(Ids(all), before + [last]), Emitted(Ids(all), before));
  }

  lemma EmitStaying(all: seq<Result>, before: seq<Result>, last: Result)
    requires !Moves(Ids(all), last) && forall d | d in before :: d.id != last.id
    ensures multiset(Emit(all, before + [last])) == multiset(Emit(all, before)) + (multiset{last} + multiset(Followers(all, last.id)))
    ensures multiset(Filter(before + [last], Stays(Ids(all)))) == multiset(Filter(before, Stays(Ids(all)))) + multiset{last}
    ensures multiset(Filter(all, Emitted(Ids(all), before + [last]))) ==
            multiset(Filter(all, Emitted(Ids(all), before))) + multiset(Followers(all, last.id))
  {
    assert (before + [last])[..|before|] == before;
    FilterUnion(all, Emitted(Ids(all), before + [last]), Emitted(Ids(all), before), FollowerOf(Ids(all), last.id));
    Snoc(Filter(before, Stays(Ids(all))), last);
  }

  lemma DistinctLast(before: seq<Result>, last: Result)
    requires DistinctIds(before + [last])
    ensures DistinctIds(before) && forall d | d in before :: d.id != last.id
  {
    var done := before + [last];
    assert done[|before|] == last && forall i | 0 <= i < |before| :: done[i] == before[i];
  }

  lemma {:induction false} EmitIsPartition(all: seq<Result>, done: seq<Result>)
    requires DistinctIds(done)
    ensures multiset(Emit(all, done)) == multiset(Filter(done, Stays(Ids(all)))) + multiset(Filter(all, Emitted(Ids(all), done)))
  {
    if done == [] {
      FilterNone(all, Emitted(Ids(all), done));
    } else {
      var before, last := done[..|done| - 1], done[|done| - 1];
      assert done == before + [last];
      DistinctLast(before, last);
      EmitIsPartition(all, before);
      if Moves(Ids(all), last) {
        EmitMoved(all, before, last);
      } else {
        EmitStaying(all, before, last);
        Shuffle(multiset(Filter(before, Stays(Ids(all)))), multiset(Filter(all, Emitted(Ids(all), before))),
                multiset{last}, multiset(Followers(all, last.id)));
      }
    }
  }

  /** A condition that is the disjoint union of two others. */
  lemma {:induction false} FilterUnion(s: seq<Result>, p: Result -> bool, q: Result -> bool, r: Result -> bool)
    requires forall x | x in s :: p(x) == (q(x) || r(x)) && !(q(x) && r(x))
    ensures multiset(Filter(s, p)) == multiset(Filter(s, q)) + multiset(Filter(s, r))
  {
    if s != [] {
      var rest, last := s[..|s| - 1], s[|s| - 1];
      FilterUnion(rest, p, q, r);
      Snoc(Filter(rest, p), last);
      Snoc(Filter(rest, q), last);
      Snoc(Filter(rest, r), last);
    }
  }

  lemma ChainLosesBlock(results: seq<Result>, a: Result, b: Result)
    requires DistinctIds(results) && a in results && b in results
    requires Moves(Ids(results), a) && a.link.value.peer == b.id && Moves(Ids(results), b)
    ensures a !in multiset(Reorder(results))
  {
    var ids := Ids(results);
    EmitIsPartition(results, results);
    FilterMembers(results, Stays(ids));
    FilterMembers(results, Emitted(ids, results));
    forall d | d in results && d.id == b.id ensures d == b {
      SameIdSameResult(results, d, b);
    }
  }

  /** Reordering loses nothing and repeats nothing exactly when there are no chains. */
  lemma ReorderIsPermutation(results: seq<Result>)
    requires DistinctIds(results)
    ensures multiset(Reorder(results)) == multiset(results) <==> NoChains(results)
  {
    var ids := Ids(results);
    if NoChains(results) {
      EmitIsPartition(results, results);
      forall r | r in results ensures Emitted(ids, results)(r) == !Stays(ids)(r) {
        if Moves(ids, r) {
          var d :| d in results && d.id == r.link.value.peer;
        }
      }
      FilterSplit(results, Stays(ids), Emitted(ids, results));
    } else {
      var a, b :| a in results && b in results && Moves(ids, a) && a.link.value.peer == b.id && Moves(ids, b);
      ChainLosesBlock(results, a, b);
      assert a in multiset(results);
    }
  }

  // ----- Services under their port -----

  function Find(results: seq<Result>, id: string): Option<Result> {
    if results == [] then None
    else if results[|results| - 1].id == id then Some(results[|results| - 1])
    else Find(results[..|results| - 1], id)
  }

  lemma {:induction false} FindById(results: seq<Result>, id: string)
    requires DistinctIds(results)
    ensures Find(results, id).None? <==> forall r | r in results :: r.id != id
    ensures forall r | r in results && r.id == id :: Find(results, id) == Some(r)
  {
    if results != [] {
      FindById(results[..|results| - 1], id);
      assert results == results[..|results| - 1] + [results[|results| - 1]];
    }
  }

  function FirstPresent(results: seq<Result>, peers: seq<string>): Option<Result> {
    if peers == [] then None
    else if Find(results, peers[0]).Some? then Find(results, peers[0])
    else FirstPresent(results, peers[1..])
  }

  /** The port a block belongs to; an L3 block takes that of its first L2 block in the results. */
  function Parent(results: seq<Result>, r: Result): Option<string> {
    var carrier :=
      if r.link.Some? && r.link.value.L3? && FirstPresent(results, IdsOf(r.link.value.members)).Some?
      then FirstPresent(results, IdsOf(r.link.value.members)).value else r;
    if carrier.physical == [] then None else Some(carrier.physical[0])
  }

  function PortOf(l1: Result): string {
    if l1.interfaces == [] then "?" else l1.interfaces[0]
  }

  function IsLayer1(): Result -> bool {
    (r: Result) => r.layer1
  }

  function IsService(): Result -> bool {
    (r: Result) => !r.layer1
  }

  function Services(results: seq<Result>): seq<Result> {
    Filter(results, IsService())
  }

  function Layer1(results: seq<Result>): seq<Result> {
    Filter(results, IsLayer1())
  }

  /** The block of a port: a later one replaces an earlier one of the same port. */
  function ByPort(l1s: seq<Result>): map<string, Result> {
    if l1s == [] then map[] else ByPort(l1s[..|l1s| - 1])[PortOf(l1s[|l1s| - 1]) := l1s[|l1s| - 1]]
  }

  function Under(results: seq<Result>, port: string): Result -> bool {
    (r: Result) => Parent(results, r) == Some(port)
  }

  function UnderNone(results: seq<Result>, ports: set<string>): Result -> bool {
    (r: Result) => Parent(results, r).None? || Parent(results, r).value !in ports
  }

  function Blocks(results: seq<Result>, ports: seq<string>): seq<Result>
    requires forall p | p in ports :: p in ByPort(Layer1(results))
  {
    if ports == [] then []
    else
      var port := ports[|ports| - 1];
      Blocks(results, ports[..|ports| - 1]) + [ByPort(Layer1(results))[port]] + Filter(Services(results), Under(results, port))
  }

  /** `ports` lists the L1 ports in the report's natural order, which no claim depends on. */
  ghost predicate PortList(results: seq<Result>, ports: seq<string>) {
    multiset(ports) == multiset(ByPort(Layer1(results)).Keys)
  }

  function Group(results: seq<Result>, ports: seq<string>): seq<Result>
    requires forall p | p in ports :: p in ByPort(Layer1(results))
  {
    Blocks(results, ports) + Filter(Services(results), UnderNone(results, ByPort(Layer1(results)).Keys))
  }

  method GroupByLayer1(results: seq<Result>, ports: seq<string>) returns (ordered: seq<Result>)
    requires PortList(results, ports)
    ensures forall p | p in ports :: p in ByPort(Layer1(results))
    ensures ordered == Group(results, ports)
  {
    PortsKnown(results, ports);
    var l1s, services := Layer1(results), Services(results);
    var byPort: map<string, Result> := map[];
    for n := 0 to |l1s|
      invariant byPort == ByPort(l1s[..n])
    {
      assert l1s[..n + 1][..n] == l1s[..n];
      byPort := byPort[PortOf(l1s[n]) := l1s[n]];
    }
    assert l1s[..|l1s|] == l1s;
    ordered := [];
    for n := 0 to |ports|
      invariant ordered == Blocks(results, ports[..n])
    {
      assert ports[..n + 1][..n] == ports[..n];
      ordered := ordered + [byPort[ports[n]]] + Filter(services, Under(results, ports[n]));
    }
    assert ports[..|ports|] == ports;
    ordered := ordered + Filter(services, UnderNone(results, byPort.Keys));
  }

  lemma PortsKnown(results: seq<Result>, ports: seq<string>)
    requires PortList(results, ports)
    ensures forall p :: p in ports <==> p in ByPort(Layer1(results))
    ensures Distinct(ports)
  {
    var keys := ByPort(Layer1(results)).Keys;
    forall p ensures p in ports <==> p in keys {
      assert p in ports <==> p in multiset(ports);
    }
    forall i, j | 0 <= i < j < |ports| ensures ports[i] != ports[j] {
      if ports[i] == ports[j] {
        Twice(ports, i, j);
      }
    }
  }

  lemma Twice<T>(s: seq<T>, i: nat, j: nat)
    requires i < j < |s| && s[i] == s[j]
    ensures multiset(s)[s[i]] >= 2
  {
    assert s == s[..j] + [s[j]] + s[j + 1..];
    assert s[..j][i] == s[i];
  }

  ghost predicate DistinctPorts(results: seq<Result>) {
    forall a, b | a in results && b in results && a.layer1 && b.layer1 && PortOf(a) == PortOf(b) :: a == b
  }

  lemma {:induction false} ByPortFinds(l1s: seq<Result>)
    ensures forall p | p in ByPort(l1s) :: ByPort(l1s)[p] in l1s && PortOf(ByPort(l1s)[p]) == p
    ensures forall r | r in l1s :: PortOf(r) in ByPort(l1s)
  {
    if l1s != [] {
      ByPortFinds(l1s[..|l1s| - 1]);
      assert l1s == l1s[..|l1s| - 1] + [l1s[|l1s| - 1]];
    }
  }

  function HasPort(ports: set<string>): Result -> bool {
    (r: Result) => PortOf(r) in ports
  }

  function UnderSome(results: seq<Result>, ports: set<string>): Result -> bool {
    (r: Result) => Parent(results, r).Some? && Parent(results, r).value in ports
  }

  /** The port's own block, found by filtering. */
  lemma OneBlockPerPort(results: seq<Result>, port: string)
    requires DistinctIds(results) && DistinctPorts(results) && port in ByPort(Layer1(results))
    ensures multiset(Filter(Layer1(results), HasPort({port}))) == multiset{ByPort(Layer1(results))[port]}
  {
    var l1s := Layer1(results);
    ByPortFinds(l1s);
    FilterMembers(results, IsLayer1());
    FilterKeepsDistinct(results, IsLayer1());
    Singled(l1s, ByPort(l1s)[port], HasPort({port}));
  }

  lemma {:induction false} FilterKeepsDistinct(s: seq<Result>, p: Result -> bool)
    requires DistinctIds(s)
    ensures DistinctIds(Filter(s, p))
  {
    if s != [] {
      FilterKeepsDistinct(s[..|s| - 1], p);
      FilterMembers(s[..|s| - 1], p);
      var f := Filter(s[..|s| - 1], p);
      assert forall i | 0 <= i < |f| :: f[i] in f;
    }
  }

  lemma {:induction false} Singled(s: seq<Result>, x: Result, p: Result -> bool)
    requires DistinctIds(s) && forall r | r in s :: p(r) <==> r == x
    ensures multiset(Filter(s, p)) == if x in s then multiset{x} else multiset{}
  {
    if s != [] {
      var rest, last := s[..|s| - 1], s[|s| - 1];
      assert s == rest + [last];
      Singled(rest, x, p);
      Snoc(Filter(rest, p), last);
      if last == x {
        assert x !in rest;
      }
    }
  }

  lemma PortSplitsOff(results: seq<Result>, some: set<string>, port: string)
    requires port !in some
    ensures multiset(Filter(Layer1(results), HasPort(some + {port}))) ==
            multiset(Filter(Layer1(results), HasPort(some))) + multiset(Filter(Layer1(results), HasPort({port})))
    ensures multiset(Filter(Services(results), UnderSome(results, some + {port}))) ==
            multiset(Filter(Services(results), UnderSome(results, some))) + multiset(Filter(Services(results), Under(results, port)))
  {
    FilterUnion(Layer1(results), HasPort(some + {port}), HasPort(some), HasPort({port}));
    FilterUnion(Services(results), UnderSome(results, some + {port}), UnderSome(results, some), Under(results, port));
  }

  function SetOf(ports: seq<string>): set<string> {
    set p | p in ports
  }

  /** The L1 blocks and services that belong to the ports. */
  ghost function PartsOf(results: seq<Result>, ports: set<string>): multiset<Result> {
    multiset(Filter(Layer1(results), HasPort(ports))) + multiset(Filter(Services(results), UnderSome(results, ports)))
  }

  lemma PartsGrow(results: seq<Result>, some: set<string>, port: string)
    requires DistinctIds(results) && DistinctPorts(results) && port !in some && port in ByPort(Layer1(results))
    ensures PartsOf(results, some + {port}) ==
            PartsOf(results, some) + (multiset{ByPort(Layer1(results))[port]} + multiset(Filter(Services(results), Under(results, port))))
  {
    OneBlockPerPort(results, port);
    PortSplitsOff(results, some, port);
    Shuffle(multiset(Filter(Layer1(results), HasPort(some))), multiset(Filter(Services(results), UnderSome(results, some))),
            multiset{ByPort(Layer1(results))[port]}, multiset(Filter(Services(results), Under(results, port))));
  }

  lemma {:induction false} BlocksPartition(results: seq<Result>, ports: seq<string>)
    requires DistinctIds(results) && DistinctPorts(results) && Distinct(ports)
    requires forall p | p in ports :: p in ByPort(Layer1(results))
    ensures multiset(Blocks(results, ports)) == PartsOf(results, SetOf(ports))
  {
    if ports == [] {
      FilterNone(Layer1(results), HasPort(SetOf(ports)));
      FilterNone(Services(results), UnderSome(results, SetOf(ports)));
    } else {
      var before, port := ports[..|ports| - 1], ports[|ports| - 1];
      assert ports == before + [port];
      BlocksPartition(results, before);
      assert SetOf(ports) == SetOf(before) + {port};
      PartsGrow(results, SetOf(before), port);
      BlocksStep(results, before, port);
    }
  }

  lemma Shuffle(a: multiset<Result>, b: multiset<Result>, c: multiset<Result>, d: multiset<Result>)
    ensures (a + b) + (c + d) == (a + c) + (b + d)
  {}

  lemma BlocksStep(results: seq<Result>, before: seq<string>, port: string)
    requires forall p | p in before + [port] :: p in ByPort(Layer1(results))
    ensures forall p | p in before :: p in before + [port]
    ensures multiset(Blocks(results, before + [port])) ==
            multiset(Blocks(results, before)) + (multiset{ByPort(Layer1(results))[port]} + multiset(Filter(Services(results), Under(results, port))))
  {
    assert (before + [port])[..|before|] == before;
  }

  lemma DistinctPortsKeepAll(results: seq<Result>, ports: seq<string>)
    requires DistinctIds(results) && PortList(results, ports) && DistinctPorts(results)
    requires forall p | p in ports :: p in ByPort(Layer1(results))
    ensures multiset(Group(results, ports)) == multiset(results)
  {
    PortsKnown(results, ports);
    var l1s, services, keys := Layer1(results), Services(results), ByPort(Layer1(results)).Keys;
    ByPortFinds(l1s);
    assert SetOf(ports) == keys;
    BlocksPartition(results, ports);
    FilterSplit(services, UnderSome(results, keys), UnderNone(results, keys));
    FilterAll(l1s, HasPort(keys));
    FilterSplit(results, IsLayer1(), IsService());
  }

  lemma SharedPortLosesBlock(results: seq<Result>, ports: seq<string>, a: Result, b: Result)
    requires forall p | p in ports :: p in ByPort(Layer1(results))
    requires a in results && b in results && a.layer1 && b.layer1 && PortOf(a) == PortOf(b) && a != b
    ensures multiset(Group(results, ports)) != multiset(results)
  {
    var l1s, services, keys := Layer1(results), Services(results), ByPort(Layer1(results)).Keys;
    BlocksMembers(results, ports);
    FilterMembers(results, IsService());
    FilterMembers(services, UnderNone(results, keys));
    var lost := if PortOf(a) in keys && ByPort(l1s)[PortOf(a)] == a then b else a;
    assert lost !in Group(results, ports);
    assert lost in multiset(results);
  }

  /** Grouping loses nothing and repeats nothing exactly when no two L1 blocks share a port. */
  lemma GroupIsPermutation(results: seq<Result>, ports: seq<string>)
    requires DistinctIds(results) && PortList(results, ports)
    ensures forall p | p in ports :: p in ByPort(Layer1(results))
    ensures multiset(Group(results, ports)) == multiset(results) <==> DistinctPorts(results)
  {
    PortsKnown(results, ports);
    if DistinctPorts(results) {
      DistinctPortsKeepAll(results, ports);
    } else {
      var a, b :| a in results && b in results && a.layer1 && b.layer1 && PortOf(a) == PortOf(b) && a != b;
      SharedPortLosesBlock(results, ports, a, b);
    }
  }

  lemma {:induction false} BlocksMembers(results: seq<Result>, ports: seq<string>)
    requires forall p | p in ports :: p in ByPort(Layer1(results))
    ensures forall r | r in Blocks(results, ports) && r.layer1 :: PortOf(r) in ByPort(Layer1(results)) && ByPort(Layer1(results))[PortOf(r)] == r
  {
    if ports != [] {
      BlocksMembers(results, ports[..|ports| - 1]);
      ByPortFinds(Layer1(results));
      FilterMembers(results, IsService());
      FilterMembers(Services(results), Under(results, ports[|ports| - 1]));
    }
  }

  // ----- The two together -----

  /** The whole pass is a permutation of the results. */
  lemma ReportKeepsAllResults(results: seq<Result>, ports: seq<string>)
    requires DistinctIds(results) && NoChains(results) && DistinctPorts(results)
    requires PortList(Reorder(results), ports)
    ensures forall p | p in ports :: p in ByPort(Layer1(Reorder(results)))
    ensures multiset(Group(Reorder(results), ports)) == multiset(results)
  {
    ReorderIsPermutation(results);
    var r := Reorder(results);
    SameElements(results, r);
    GroupIsPermutation(r, ports);
  }

  lemma SameElements(a: seq<Result>, b: seq<Result>)
    requires multiset(a) == multiset(b) && DistinctIds(a)
    ensures DistinctIds(b) && forall x :: x in a <==> x in b
  {
    forall x ensures x in a <==> x in b {
      assert (x in a <==> x in multiset(a)) && (x in b <==> x in multiset(b));
    }
    forall i, j | 0 <= i < j < |b| ensures b[i].id != b[j].id {
      if b[i].id == b[j].id {
        assert b[i] in a && b[j] in a;
        SameIdSameResult(a, b[i], b[j]);
        Twice(b, i, j);
        OnlyOnce(a, b[i]);
      }
    }
  }

  lemma {:induction false} OnlyOnce(a: seq<Result>, x: Result)
    requires DistinctIds(a)
    ensures multiset(a)[x] <= 1
  {
    if a != [] {
      var rest, last := a[..|a| - 1], a[|a| - 1];
      OnlyOnce(rest, x);
      assert a == rest + [last];
      assert last !in multiset(rest);
    }
  }
}
