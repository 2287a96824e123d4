/** Which block stands where in the report (engine.py), told from the links and the fields of the blocks. */
module ReportPlaces {
  import opened Wrappers
  import opened Seqs
  import opened ReportOrder
  import opened LinkedBlocks

  type Result = ReportOrder.Result

  // ----- Links -----

  function LinksOf(links: seq<ScopeLink>, l3: string): seq<ScopeLink> {
    Filter(links, (l: ScopeLink) => l.l3 == l3)
  }

  lemma {:induction false} MembersAre(links: seq<ScopeLink>, l3: string)
    ensures MembersOf(links, l3) == Map(LinksOf(links, l3), (l: ScopeLink) => Peer(l.l2, l.l2Interface, l.l2Instance))
  {
    if links != [] {
      MembersAre(links[..|links| - 1], l3);
    }
  }

  lemma {:induction false} LinkOfIs(links: seq<ScopeLink>, i: nat)
    requires WellLinked(links) && i < |links|
    ensures LinkOf(links, links[i].l2) == Some(links[i])
  {
    if i < |links| - 1 {
      LinkOfIs(links[..|links| - 1], i);
    }
  }

  /** Each link is told on both sides: the L2 block names its L3 block with the interface there and the
      routing table, the L3 block all its L2 blocks, in their order, with their interfaces and instances. */
  lemma BothSides(links: seq<ScopeLink>, i: nat)
    requires WellLinked(links) && i < |links|
    ensures PayloadOf(links, links[i].l2) ==
            Some(L2(links[i].l3, links[i].irb, if links[i].l3Context == "master" then "inet.0" else links[i].l3Context))
    ensures PayloadOf(links, links[i].l3) ==
            Some(L3(Map(LinksOf(links, links[i].l3), (l: ScopeLink) => Peer(l.l2, l.l2Interface, l.l2Instance))))
  {
    LinkOfIs(links, i);
    NotAnL2Side(links, links[i].l3);
    MembersAre(links, links[i].l3);
    FilterMembers(links, (l: ScopeLink) => l.l3 == links[i].l3);
    assert links[i] in LinksOf(links, links[i].l3);
  }

  /** The L2 blocks that follow an L3 block are those that name it. */
  lemma FollowersAre(results: seq<Result>, l3: Result, x: Result)
    requires l3 in results
    ensures x in Followers(results, l3.id) <==> x in results && x.link.Some? && x.link.value.L2? && x.link.value.peer == l3.id
  {
    FilterMembers(results, FollowerOf(Ids(results), l3.id));
    assert l3.id in Ids(results);
  }

  // ----- Ports -----

  predicate Present(results: seq<Result>, id: string) {
    exists x | x in results :: x.id == id
  }

  /** The j-th member is the first that is among the results. */
  predicate FirstMember(results: seq<Result>, members: seq<Peer>, j: int) {
    0 <= j < |members| && Present(results, members[j].id) && forall k | 0 <= k < j :: !Present(results, members[k].id)
  }

  /** The block whose port counts for `r`: the first L2 block of an L3 block that is in the results, or the
      block itself. */
  ghost predicate CarriedBy(results: seq<Result>, r: Result, x: Result) {
    if r.link.Some? && r.link.value.L3? && exists j :: FirstMember(results, r.link.value.members, j) then
      x in results && exists j :: FirstMember(results, r.link.value.members, j) && r.link.value.members[j].id == x.id
    else x == r
  }

  lemma IdsAre(members: seq<Peer>)
    ensures |IdsOf(members)| == |members| && forall j | 0 <= j < |members| :: IdsOf(members)[j] == members[j].id
  {}

  lemma {:induction false} FirstPresentIs(results: seq<Result>, peers: seq<string>) returns (j: int)
    requires DistinctIds(results)
    ensures FirstPresent(results, peers).None? ==> forall k | 0 <= k < |peers| :: !Present(results, peers[k])
    ensures FirstPresent(results, peers).Some? ==>
              var x := FirstPresent(results, peers).value;
              0 <= j < |peers| && x in results && x.id == peers[j] && forall k | 0 <= k < j :: !Present(results, peers[k])
  {
    j := 0;
    if peers != [] {
      FindById(results, peers[0]);
      FindMember(results, peers[0]);
      if Find(results, peers[0]).None? {
        var i := FirstPresentIs(results, peers[1..]);
        j := i + 1;
      }
    }
  }

  lemma CarrierIs(results: seq<Result>, r: Result) returns (x: Result)
    requires DistinctIds(results)
    ensures CarriedBy(results, r, x)
    ensures Parent(results, r) == if |x.physical| > 0 then Some(x.physical[0]) else None
  {
    x := r;
    if r.link.Some? && r.link.value.L3? {
      var members := r.link.value.members;
      IdsAre(members);
      var j := FirstPresentIs(results, IdsOf(members));
      if FirstPresent(results, IdsOf(members)).Some? {
        x := FirstPresent(results, IdsOf(members)).value;
        assert Present(results, members[j].id);
        assert FirstMember(results, members, j) && members[j].id == x.id;
      } else {
        assert forall k | 0 <= k < |members| :: !Present(results, IdsOf(members)[k]);
      }
    }
  }

  lemma OneCarrier(results: seq<Result>, r: Result, x: Result, y: Result)
    requires DistinctIds(results) && CarriedBy(results, r, x) && CarriedBy(results, r, y)
    ensures x == y
  {
    if r.link.Some? && r.link.value.L3? && exists j :: FirstMember(results, r.link.value.members, j) {
      var members := r.link.value.members;
      var j :| FirstMember(results, members, j) && members[j].id == x.id;
      var k :| FirstMember(results, members, k) && members[k].id == y.id;
      assert j == k;
      SameIdSameResult(results, x, y);
    }
  }

  function FirstInterface(l: Result): string {
    if |l.interfaces| > 0 then l.interfaces[0] else "?"
  }

  /** The port's block: the last one of that port. */
  ghost predicate BlockOf(results: seq<Result>, l: Result, port: string) {
    exists i :: BlockAt(results, l, port, i)
  }

  ghost predicate BlockAt(results: seq<Result>, l: Result, port: string, i: int) {
    && 0 <= i < |results| && results[i] == l && l.layer1 && FirstInterface(l) == port
    && forall j | i < j < |results| && results[j].layer1 :: FirstInterface(results[j]) != port
  }

  lemma BlockStays(before: seq<Result>, last: Result, l: Result, port: string, i: int)
    requires BlockAt(before, l, port, i) && !(last.layer1 && FirstInterface(last) == port)
    ensures BlockAt(before + [last], l, port, i)
  {}

  lemma BlockIsNew(before: seq<Result>, last: Result)
    requires last.layer1
    ensures BlockAt(before + [last], last, FirstInterface(last), |before|)
  {}

  lemma ByPortSnoc(before: seq<Result>, last: Result)
    ensures ByPort(Layer1(before + [last])) ==
            if last.layer1 then ByPort(Layer1(before))[FirstInterface(last) := last] else ByPort(Layer1(before))
  {
    assert (before + [last])[..|before|] == before;
    if last.layer1 {
      assert Layer1(before + [last]) == Layer1(before) + [last];
      assert (Layer1(before) + [last])[..|Layer1(before)|] == Layer1(before);
    } else {
      assert Layer1(before + [last]) == Layer1(before);
    }
  }

  lemma {:induction false} ByPortIs(results: seq<Result>, port: string)
    ensures port in ByPort(Layer1(results)) <==> exists l | l in results :: l.layer1 && FirstInterface(l) == port
    ensures port in ByPort(Layer1(results)) ==> BlockOf(results, ByPort(Layer1(results))[port], port)
  {
    if results != [] {
      var before, last := results[..|results| - 1], results[|results| - 1];
      ByPortIs(before, port);
      ByPortSnoc(before, last);
      assert results == before + [last];
      if last.layer1 && FirstInterface(last) == port {
        BlockIsNew(before, last);
      } else if port in ByPort(Layer1(before)) {
        var l := ByPort(Layer1(before))[port];
        var i :| BlockAt(before, l, port, i);
        BlockStays(before, last, l, port, i);
      }
    }
  }

  // ----- Places -----

  /** `r` stands behind the block of the port with nothing but services between them. */
  ghost predicate StandsUnder(results: seq<Result>, report: seq<Result>, r: Result, port: string) {
    exists z, l, w, v :: BlockOf(results, l, port) && NoLayer1(w) && report == z + ([l] + w + [r]) + v
  }

  /** `r` stands behind all port blocks. */
  ghost predicate StandsLast(report: seq<Result>, r: Result) {
    exists u, v :: NoLayer1(v) && report == u + [r] + v
  }

  lemma {:induction false} BlockAndServices(r: seq<Result>, ports: seq<string>, port: string) returns (u: seq<Result>, v: seq<Result>)
    requires (forall p | p in ports :: p in ByPort(Layer1(r))) && port in ports
    ensures Blocks(r, ports) == u + ([ByPort(Layer1(r))[port]] + Filter(Services(r), Under(r, port))) + v
  {
    var before, last := ports[..|ports| - 1], ports[|ports| - 1];
    if last == port {
      u, v := Blocks(r, before), [];
    } else {
      assert ports == before + [last];
      u, v := BlockAndServices(r, before, port);
      var w := [ByPort(Layer1(r))[last]] + Filter(Services(r), Under(r, last));
      BlocksSnoc(r, ports);
      Tail(u, [ByPort(Layer1(r))[port]] + Filter(Services(r), Under(r, port)), v, w);
      v := v + w;
    }
  }

  lemma MemberSplits(s: seq<Result>, r: Result) returns (w: seq<Result>, v: seq<Result>)
    requires r in s
    ensures s == w + [r] + v
  {
    var i :| 0 <= i < |s| && s[i] == r;
    w, v := s[..i], s[i + 1..];
  }

  lemma Nested(u: seq<Result>, l: Result, w: seq<Result>, r: Result, x: seq<Result>, v: seq<Result>, rest: seq<Result>)
    ensures u + ([l] + (w + [r] + x)) + v + rest == u + ([l] + w + [r]) + (x + v + rest)
  {}

  lemma ServicesWith(results: seq<Result>, p: Result -> bool, r: Result)
    ensures r in Filter(Services(results), p) <==> r in results && !r.layer1 && p(r)
    ensures NoLayer1(Filter(Services(results), p))
  {
    FilterMembers(results, IsService());
    FilterMembers(Services(results), p);
  }

  lemma ServiceSplits(results: seq<Result>, p: Result -> bool, r: Result) returns (w: seq<Result>, v: seq<Result>)
    requires r in results && !r.layer1 && p(r)
    ensures Filter(Services(results), p) == w + [r] + v && NoLayer1(w) && NoLayer1(v)
  {
    ServicesWith(results, p, r);
    var all := Filter(Services(results), p);
    w, v := MemberSplits(all, r);
    assert forall y | y in w || y in v :: y in all;
  }

  lemma UnderPort(results: seq<Result>, ports: seq<string>, r: Result, port: string)
    requires forall p | p in ports :: p in ByPort(Layer1(results))
    requires r in results && !r.layer1 && Parent(results, r) == Some(port) && port in ports
    requires BlockOf(results, ByPort(Layer1(results))[port], port)
    ensures StandsUnder(results, Group(results, ports), r, port)
  {
    var u, v := BlockAndServices(results, ports, port);
    var w, x := ServiceSplits(results, Under(results, port), r);
    var rest := Filter(Services(results), UnderNone(results, ByPort(Layer1(results)).Keys));
    var l := ByPort(Layer1(results))[port];
    Nested(u, l, w, r, x, v, rest);
    Places(results, Group(results, ports), r, port, u, l, w, x + v + rest);
  }

  lemma Places(results: seq<Result>, report: seq<Result>, r: Result, port: string, z: seq<Result>, l: Result, w: seq<Result>, v: seq<Result>)
    requires BlockOf(results, l, port) && NoLayer1(w) && report == z + ([l] + w + [r]) + v
    ensures StandsUnder(results, report, r, port)
  {}

  lemma Behind(results: seq<Result>, ports: seq<string>, r: Result)
    requires forall p :: p in ports <==> p in ByPort(Layer1(results))
    requires r in results && !r.layer1 && (Parent(results, r).None? || Parent(results, r).value !in ports)
    ensures StandsLast(Group(results, ports), r)
  {
    var w, v := ServiceSplits(results, UnderNone(results, ByPort(Layer1(results)).Keys), r);
    Reassociate(Blocks(results, ports), w, [r], v);
  }

  /** Main theorem: a service stands under the block of the first physical port of the block that carries it,
      or behind all port blocks when it has none in the report. */
  lemma PlaceOfService(results: seq<Result>, ports: seq<string>, r: Result, x: Result)
    requires PortList(results, ports) && DistinctIds(results) && r in results && !r.layer1 && CarriedBy(results, r, x)
    ensures forall p :: p in ports <==> exists l | l in results :: l.layer1 && FirstInterface(l) == p
    ensures forall p | p in ports :: p in ByPort(Layer1(results))
    ensures
      var report := Group(results, ports);
      if |x.physical| > 0 && x.physical[0] in ports then StandsUnder(results, report, r, x.physical[0]) else StandsLast(report, r)
  {
    PortsKnown(results, ports);
    forall p { ByPortIs(results, p); }
    var y := CarrierIs(results, r);
    OneCarrier(results, r, x, y);
    if |x.physical| > 0 && x.physical[0] in ports {
      UnderPort(results, ports, r, x.physical[0]);
    } else {
      Behind(results, ports, r);
    }
  }
}
