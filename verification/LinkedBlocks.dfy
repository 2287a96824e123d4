/** L2 blocks behind their L3 block in the final order of the report (engine.py): when the two passes
of the report's ordering leave an L3 block followed at once by exactly its L2 blocks. */
module LinkedBlocks {
  import opened Wrappers
  import opened Seqs
  import opened ReportOrder

  type Result = ReportOrder.Result

  /** Results as the engine builds them: services carry their link payload, L1 blocks none. */
  ghost predicate Linked(results: seq<Result>, links: seq<ScopeLink>) {
    forall r | r in results :: r.link == if r.layer1 then None else PayloadOf(links, r.id)
  }

  lemma {:induction false} PeersAreLinks(links: seq<ScopeLink>, l3: string, l2: string)
    requires WellLinked(links)
    ensures l2 in PeersOf(links, l3) <==> PeerOf(links, l2) == Some(l3)
    ensures PeerOf(links, l2) == Some(l3) ==> PeerOf(links, l3).None? && PeersOf(links, l3) != []
    ensures PeerOf(links, l2).Some? ==> exists i | 0 <= i < |links| :: links[i].l3 == PeerOf(links, l2).value && links[i].l2 == l2
  {
    if links != [] {
      var before, last := links[..|links| - 1], links[|links| - 1];
      PeersAreLinks(before, l3, l2);
      assert forall i | 0 <= i < |before| :: links[i] == before[i];
      if PeerOf(links, l2) == Some(l3) {
        forall i | 0 <= i < |links| ensures links[i].l2 != l3 {
          var k :| 0 <= k < |links| && links[k].l3 == l3;
        }
        NotAnL2Side(links, l3);
      }
    }
  }

  lemma LinkedHasNoChains(results: seq<Result>, links: seq<ScopeLink>)
    requires WellLinked(links) && Linked(results, links)
    ensures NoChains(results)
  {
    forall a, b | a in results && b in results && Moves(Ids(results), a) && a.link.value.peer == b.id
      ensures !Moves(Ids(results), b)
    {
      PeersAreLinks(links, b.id, a.id);
    }
  }

  /** The L2 sides the payload of an L3 block lists are its followers. */
  lemma ListedPeersFollow(results: seq<Result>, links: seq<ScopeLink>, l3: Result, x: Result)
    requires WellLinked(links) && Linked(results, links) && l3 in results && x in results && !x.layer1
    ensures x.id in PeersOf(links, l3.id) <==> x in Followers(results, l3.id)
  {
    var ids := Ids(results);
    FilterMembers(results, FollowerOf(ids, l3.id));
    PeersAreLinks(links, l3.id, x.id);
    assert l3.id in ids;
  }

  /** An L3 block takes the port of one of its L2 blocks. */
  lemma ParentFromFollower(results: seq<Result>, links: seq<ScopeLink>, r: seq<Result>, l3: Result, f: Result) returns (x: Result)
    requires WellLinked(links) && Linked(results, links) && DistinctIds(r) && (forall x :: x in results <==> x in r)
    requires forall x | x in results && x.layer1 :: PayloadOf(links, x.id).None?
    requires l3 in results && !l3.layer1 && f in Followers(results, l3.id)
    ensures x in Followers(results, l3.id) && Parent(r, l3) == Parent(r, x)
  {
    FilterMembers(results, FollowerOf(Ids(results), l3.id));
    ListedPeersFollow(results, links, l3, f);
    PeersAreLinks(links, l3.id, f.id);
    MembersHaveIds(links, l3.id);
    FindById(r, f.id);
    PresentPeer(r, PeersOf(links, l3.id), f.id);
    x := FirstPresent(r, PeersOf(links, l3.id)).value;
    PeersAreLinks(links, l3.id, x.id);
    ListedPeersFollow(results, links, l3, x);
  }

  lemma {:induction false} PresentPeer(r: seq<Result>, peers: seq<string>, id: string)
    requires DistinctIds(r) && id in peers && Find(r, id).Some?
    ensures FirstPresent(r, peers).Some? && FirstPresent(r, peers).value in r && FirstPresent(r, peers).value.id in peers
  {
    FindMember(r, peers[0]);
    if Find(r, peers[0]).None? {
      PresentPeer(r, peers[1..], id);
    }
  }

  lemma {:induction false} FindMember(r: seq<Result>, id: string)
    ensures Find(r, id).Some? ==> Find(r, id).value in r && Find(r, id).value.id == id
  {
    if r != [] {
      FindMember(r[..|r| - 1], id);
    }
  }

  lemma {:induction false} EmitContains(all: seq<Result>, done: seq<Result>, l3: Result) returns (u: seq<Result>, v: seq<Result>)
    requires l3 in done && !Moves(Ids(all), l3)
    ensures Emit(all, done) == u + ([l3] + Followers(all, l3.id)) + v
  {
    var before, last := done[..|done| - 1], done[|done| - 1];
    if last == l3 {
      u, v := Emit(all, before), [];
    } else {
      assert done == before + [last];
      u, v := EmitContains(all, before, l3);
      v := v + if Moves(Ids(all), last) then [] else [last] + Followers(all, last.id);
    }
  }

  lemma BlocksSnoc(r: seq<Result>, ports: seq<string>)
    requires (forall p | p in ports :: p in ByPort(Layer1(r))) && ports != []
    ensures
      var last := ports[|ports| - 1];
      Blocks(r, ports) == Blocks(r, ports[..|ports| - 1]) + ([ByPort(Layer1(r))[last]] + Filter(Services(r), Under(r, last)))
  {}

  lemma Tail(u: seq<Result>, block: seq<Result>, v: seq<Result>, w: seq<Result>)
    ensures (u + block + v) + w == u + block + (v + w)
  {}

  lemma {:induction false} BlocksContain(r: seq<Result>, ports: seq<string>, port: string) returns (u: seq<Result>, v: seq<Result>)
    requires (forall p | p in ports :: p in ByPort(Layer1(r))) && port in ports
    ensures Blocks(r, ports) == u + Filter(Services(r), Under(r, port)) + v
  {
    var before, last := ports[..|ports| - 1], ports[|ports| - 1];
    if last == port {
      u, v := Blocks(r, before) + [ByPort(Layer1(r))[port]], [];
    } else {
      assert ports == before + [last];
      u, v := BlocksContain(r, before, port);
      var w := [ByPort(Layer1(r))[last]] + Filter(Services(r), Under(r, last));
      BlocksSnoc(r, ports);
      Tail(u, Filter(Services(r), Under(r, port)), v, w);
      v := v + w;
    }
  }

  /** A contiguous run of elements that all pass stays contiguous. */
  lemma FilterKeepsRun(a: seq<Result>, block: seq<Result>, b: seq<Result>, p: Result -> bool)
    requires forall x | x in block :: p(x)
    ensures Filter(a + block + b, p) == Filter(a, p) + block + Filter(b, p)
  {
    FilterConcat(a + block, b, p);
    FilterConcat(a, block, p);
    FilterAll(block, p);
  }

  lemma RunUnderNone(r: seq<Result>, ports: seq<string>, s1: seq<Result>, block: seq<Result>, s2: seq<Result>)
    returns (u: seq<Result>, v: seq<Result>)
    requires Services(r) == s1 + block + s2 && forall p | p in ports :: p in ByPort(Layer1(r))
    requires forall x | x in block :: UnderNone(r, ByPort(Layer1(r)).Keys)(x)
    ensures Group(r, ports) == u + block + v
  {
    var p := UnderNone(r, ByPort(Layer1(r)).Keys);
    FilterKeepsRun(s1, block, s2, p);
    u, v := Blocks(r, ports) + Filter(s1, p), Filter(s2, p);
    Reassociate(Blocks(r, ports), Filter(s1, p), block, Filter(s2, p));
  }

  lemma Reassociate(x: seq<Result>, a: seq<Result>, block: seq<Result>, b: seq<Result>)
    ensures x + (a + block + b) == (x + a) + block + b
  {}

  lemma RunUnderPort(r: seq<Result>, ports: seq<string>, s1: seq<Result>, block: seq<Result>, s2: seq<Result>, port: string)
    returns (u: seq<Result>, v: seq<Result>)
    requires Services(r) == s1 + block + s2 && port in ports && forall p | p in ports :: p in ByPort(Layer1(r))
    requires forall x | x in block :: Parent(r, x) == Some(port)
    ensures Group(r, ports) == u + block + v
  {
    var p, rest := Under(r, port), Filter(Services(r), UnderNone(r, ByPort(Layer1(r)).Keys));
    FilterKeepsRun(s1, block, s2, p);
    var x, y := BlocksContain(r, ports, port);
    u, v := x + Filter(s1, p), Filter(s2, p) + y + rest;
    Regroup(x, Filter(s1, p), block, Filter(s2, p), y, rest);
  }

  lemma Regroup(x: seq<Result>, a: seq<Result>, block: seq<Result>, b: seq<Result>, y: seq<Result>, z: seq<Result>)
    ensures x + (a + block + b) + y + z == (x + a) + block + (b + y + z)
  {}

  // ----- Where a block ends up -----

  /** The port whose block heads it in the report, None when it stands at the end. */
  function Home(r: seq<Result>, x: Result): Option<string> {
    if Parent(r, x).Some? && Parent(r, x).value in ByPort(Layer1(r)) then Parent(r, x) else None
  }

  ghost predicate OneHome(r: seq<Result>, block: seq<Result>) {
    forall x, y | x in block && y in block :: Home(r, x) == Home(r, y)
  }

  /** The block begins under the last port of the report and ends among the services without a port,
      which follow at once: nothing else of that port comes after it, and nothing without a port
      before it. */
  ghost predicate AcrossTheEnd(r: seq<Result>, ports: seq<string>, a: seq<Result>, block: seq<Result>, b: seq<Result>, k: int) {
    && ports != [] && 0 < k < |block|
    && (forall x | x in block[..k] :: Home(r, x) == Some(ports[|ports| - 1]))
    && (forall x | x in block[k..] :: Home(r, x) == None)
    && (forall x | x in a && !x.layer1 :: Home(r, x) != None)
    && (forall x | x in b && !x.layer1 :: Home(r, x) != Some(ports[|ports| - 1]))
  }

  /** One uninterrupted piece of the report. */
  ghost predicate Together(report: seq<Result>, block: seq<Result>) {
    exists u, v :: report == u + block + v
  }

  ghost predicate NoLayer1(s: seq<Result>) {
    forall x | x in s :: !x.layer1
  }

  /** A port block cuts the report: a piece without port blocks lies before or behind it. */
  lemma CutAtLayer1(z: seq<Result>, l: Result, w: seq<Result>, u: seq<Result>, block: seq<Result>, v: seq<Result>)
    requires z + [l] + w == u + block + v && l.layer1 && NoLayer1(block) && block != []
    ensures (|z| < |u| && w == u[|z| + 1..] + block + v) || (|u| + |block| <= |z| && z == u + block + z[|u| + |block|..])
  {
    var all := u + block + v;
    assert all[|z|] == l;
    assert forall i | 0 <= i < |block| :: all[|u| + i] == block[i] && block[i] in block;
    if |z| < |u| {
      assert w == all[|z| + 1..];
      assert all[|z| + 1..] == u[|z| + 1..] + block + v;
    } else {
      assert z == all[..|z|];
      assert all[..|z|] == u + block + all[|u| + |block|..|z|];
      assert z[|u| + |block|..] == all[|u| + |block|..|z|];
    }
  }

  /** The services under the last port. */
  function LastSection(r: seq<Result>, ports: seq<string>): seq<Result> {
    if ports == [] then [] else Filter(Services(r), Under(r, ports[|ports| - 1]))
  }

  lemma BlocksEnd(r: seq<Result>, ports: seq<string>) returns (z: seq<Result>, l: Result)
    requires ports != [] && forall p | p in ports :: p in ByPort(Layer1(r))
    ensures z == Blocks(r, ports[..|ports| - 1]) && l.layer1 && Blocks(r, ports) == z + [l] + LastSection(r, ports)
  {
    z, l := Blocks(r, ports[..|ports| - 1]), ByPort(Layer1(r))[ports[|ports| - 1]];
    ByPortFinds(Layer1(r));
    FilterMembers(r, IsLayer1());
  }

  lemma InLastSection(r: seq<Result>, ports: seq<string>, before: seq<Result>, block: seq<Result>, after: seq<Result>)
    requires LastSection(r, ports) == before + block + after && block != []
    ensures ports != [] && forall x | x in block :: Parent(r, x) == Some(ports[|ports| - 1])
  {
    assert |LastSection(r, ports)| > 0;
    FilterMembers(Services(r), Under(r, ports[|ports| - 1]));
    forall x | x in block ensures x in LastSection(r, ports) {
      assert x in before + block + after;
    }
  }

  ghost predicate UnderOne(r: seq<Result>, ports: seq<string>, block: seq<Result>) {
    exists p | p in ports :: forall x | x in block :: Parent(r, x) == Some(p)
  }

  lemma UnderEarlier(r: seq<Result>, ports: seq<string>, block: seq<Result>, after: seq<Result>)
    requires ports != [] && block != []
    requires var earlier := ports[..|ports| - 1];
             UnderOne(r, earlier, block) || exists before :: LastSection(r, earlier) + [] == before + block + after
    ensures UnderOne(r, ports, block)
  {
    var earlier := ports[..|ports| - 1];
    assert forall p | p in earlier :: p in ports;
    if before :| LastSection(r, earlier) + [] == before + block + after {
      assert LastSection(r, earlier) + [] == LastSection(r, earlier);
      InLastSection(r, earlier, before, block, after);
      assert earlier[|earlier| - 1] in earlier;
    }
  }

  /** A piece of the report without port blocks lies under one port, or from the last port on. */
  lemma {:induction false} Located(r: seq<Result>, ports: seq<string>, rest: seq<Result>, u: seq<Result>, block: seq<Result>, v: seq<Result>)
    requires forall p | p in ports :: p in ByPort(Layer1(r))
    requires Blocks(r, ports) + rest == u + block + v && NoLayer1(block) && block != []
    ensures UnderOne(r, ports, block) || exists before :: LastSection(r, ports) + rest == before + block + v
  {
    if ports == [] {
      assert LastSection(r, ports) + rest == u + block + v;
    } else {
      var z, l := BlocksEnd(r, ports);
      var w := LastSection(r, ports) + rest;
      Rejoin(z, l, LastSection(r, ports), rest);
      CutAtLayer1(z, l, w, u, block, v);
      if |z| >= |u| {
        var after := z[|u| + |block|..];
        assert z + [] == z;
        Located(r, ports[..|ports| - 1], [], u, block, after);
        UnderEarlier(r, ports, block, after);
      }
    }
  }

  lemma Rejoin(z: seq<Result>, l: Result, f: seq<Result>, rest: seq<Result>)
    ensures (z + [l] + f) + rest == z + [l] + (f + rest)
  {}

  // ----- When a run of services stays in one piece -----

  /** The run of services `block` in r, between `a` and `b`. */
  ghost predicate RunIn(r: seq<Result>, ports: seq<string>, a: seq<Result>, block: seq<Result>, b: seq<Result>) {
    && r == a + block + b && DistinctIds(r) && block != [] && NoLayer1(block)
    && forall p :: p in ports <==> p in ByPort(Layer1(r))
  }

  function Unhoused(r: seq<Result>): seq<Result> {
    Filter(Services(r), UnderNone(r, ByPort(Layer1(r)).Keys))
  }

  lemma SectionsOf(r: seq<Result>, ports: seq<string>, a: seq<Result>, block: seq<Result>, b: seq<Result>, p: Result -> bool)
    requires RunIn(r, ports, a, block, b)
    ensures Filter(Services(r), p) == Filter(Services(a), p) + Filter(block, p) + Filter(Services(b), p)
  {
    FilterKeepsRun(a, block, b, IsService());
    FilterConcat(Services(a) + block, Services(b), p);
    FilterConcat(Services(a), block, p);
  }

  lemma OneHomeSuffices(r: seq<Result>, ports: seq<string>, a: seq<Result>, block: seq<Result>, b: seq<Result>)
    requires RunIn(r, ports, a, block, b) && OneHome(r, block)
    ensures Together(Group(r, ports), block)
  {
    FilterKeepsRun(a, block, b, IsService());
    var home := Home(r, block[0]);
    assert forall x | x in block :: Home(r, x) == home;
    if home.Some? {
      var u, v := RunUnderPort(r, ports, Services(a), block, Services(b), home.value);
    } else {
      var u, v := RunUnderNone(r, ports, Services(a), block, Services(b));
    }
  }

  /** The last port's section ends with the front of the block. */
  lemma SectionEnds(r: seq<Result>, ports: seq<string>, a: seq<Result>, block: seq<Result>, b: seq<Result>, k: int)
    requires RunIn(r, ports, a, block, b) && AcrossTheEnd(r, ports, a, block, b, k)
    ensures LastSection(r, ports) == Filter(Services(a), Under(r, ports[|ports| - 1])) + block[..k]
  {
    var p := Under(r, ports[|ports| - 1]);
    assert ports[|ports| - 1] in ports;
    SectionsOf(r, ports, a, block, b, p);
    FilterMembers(b, IsService());
    FilterNone(Services(b), p);
    FrontPasses(block, k, p);
  }

  /** And the services without a port begin with its rest. */
  lemma RestBegins(r: seq<Result>, ports: seq<string>, a: seq<Result>, block: seq<Result>, b: seq<Result>, k: int)
    requires RunIn(r, ports, a, block, b) && AcrossTheEnd(r, ports, a, block, b, k)
    ensures Unhoused(r) == block[k..] + Filter(Services(b), UnderNone(r, ByPort(Layer1(r)).Keys))
  {
    var p := UnderNone(r, ByPort(Layer1(r)).Keys);
    SectionsOf(r, ports, a, block, b, p);
    FilterMembers(a, IsService());
    assert forall x | Home(r, x) != None :: !p(x);
    FilterNone(Services(a), p);
    assert forall x | Home(r, x) == None :: p(x);
    BackPasses(block, k, p);
    assert [] + block[k..] == block[k..];
  }

  lemma Glue(z: seq<Result>, l: Result, f: seq<Result>, block: seq<Result>, k: int, t: seq<Result>)
    requires 0 <= k <= |block|
    ensures (z + [l] + (f + block[..k])) + (block[k..] + t) == (z + [l] + f) + block + t
  {
    assert block == block[..k] + block[k..];
  }

  lemma AcrossTheEndSuffices(r: seq<Result>, ports: seq<string>, a: seq<Result>, block: seq<Result>, b: seq<Result>, k: int)
    requires RunIn(r, ports, a, block, b) && AcrossTheEnd(r, ports, a, block, b, k)
    ensures Together(Group(r, ports), block)
  {
    var z, l := BlocksEnd(r, ports);
    SectionEnds(r, ports, a, block, b, k);
    RestBegins(r, ports, a, block, b, k);
    var f, t := Filter(Services(a), Under(r, ports[|ports| - 1])), Filter(Services(b), UnderNone(r, ByPort(Layer1(r)).Keys));
    Glue(z, l, f, block, k, t);
    assert Group(r, ports) == (z + [l] + f) + block + t;
  }

  lemma FrontPasses(block: seq<Result>, k: int, p: Result -> bool)
    requires 0 <= k <= |block| && (forall x | x in block[..k] :: p(x)) && (forall x | x in block[k..] :: !p(x))
    ensures Filter(block, p) == block[..k]
  {
    assert block == block[..k] + block[k..];
    FilterConcat(block[..k], block[k..], p);
    FilterAll(block[..k], p);
    FilterNone(block[k..], p);
  }

  lemma BackPasses(block: seq<Result>, k: int, p: Result -> bool)
    requires 0 <= k <= |block| && (forall x | x in block[..k] :: !p(x)) && (forall x | x in block[k..] :: p(x))
    ensures Filter(block, p) == block[k..]
  {
    assert block == block[..k] + block[k..];
    FilterConcat(block[..k], block[k..], p);
    FilterNone(block[..k], p);
    FilterAll(block[k..], p);
  }

  lemma Outermost(f: seq<Result>, x: seq<Result>, y: seq<Result>, z: seq<Result>)
    requires f == x + y + z
    ensures z != [] ==> f != [] && f[|f| - 1] == z[|z| - 1] && z[|z| - 1] in z
    ensures x != [] ==> f != [] && f[0] == x[0] && x[0] in x
  {}

  /** Nothing of the last port comes after a block that ends that port's section. */
  lemma NothingBehind(r: seq<Result>, ports: seq<string>, a: seq<Result>, block: seq<Result>, b: seq<Result>, y: Result, x: Result)
    requires RunIn(r, ports, a, block, b) && ports != [] && y in block
    requires var f := LastSection(r, ports); f != [] && f[|f| - 1] == y
    requires x in b && !x.layer1
    ensures Home(r, x) != Some(ports[|ports| - 1])
  {
    var p := Under(r, ports[|ports| - 1]);
    var s := Filter(Services(b), p);
    SectionsOf(r, ports, a, block, b, p);
    Outermost(LastSection(r, ports), Filter(Services(a), p), Filter(block, p), s);
    FilterMembers(b, IsService());
    FilterMembers(Services(b), p);
    if x in s {
      Apart(r, a, block, b, y, s[|s| - 1]);
    }
  }

  /** Nothing without a port comes before a block that begins their section. */
  lemma NothingBefore(r: seq<Result>, ports: seq<string>, a: seq<Result>, block: seq<Result>, b: seq<Result>, y: Result, x: Result)
    requires RunIn(r, ports, a, block, b) && y in block
    requires Unhoused(r) != [] && Unhoused(r)[0] == y
    requires x in a && !x.layer1
    ensures Home(r, x) != None
  {
    var p := UnderNone(r, ByPort(Layer1(r)).Keys);
    var s := Filter(Services(a), p);
    SectionsOf(r, ports, a, block, b, p);
    Outermost(Unhoused(r), s, Filter(block, p), Filter(Services(b), p));
    FilterMembers(a, IsService());
    FilterMembers(Services(a), p);
    if x in s {
      Apart(r, a, block, b, y, s[0]);
    }
  }

  lemma Apart(r: seq<Result>, a: seq<Result>, block: seq<Result>, b: seq<Result>, y: Result, x: Result)
    requires r == a + block + b && DistinctIds(r) && y in block && (x in a || x in b)
    ensures x != y
  {
    var j :| 0 <= j < |block| && block[j] == y;
    assert r[|a| + j] == y;
    if x in a {
      var i :| 0 <= i < |a| && a[i] == x;
      assert r[i] == x;
    } else {
      var i :| 0 <= i < |b| && b[i] == x;
      assert r[|a| + |block| + i] == x;
    }
  }

  lemma HomesOfSections(r: seq<Result>, ports: seq<string>)
    requires ports != [] && forall p :: p in ports <==> p in ByPort(Layer1(r))
    ensures forall x | x in LastSection(r, ports) :: Home(r, x) == Some(ports[|ports| - 1])
    ensures forall x | x in Unhoused(r) :: Home(r, x) == None
  {
    FilterMembers(Services(r), Under(r, ports[|ports| - 1]));
    FilterMembers(Services(r), UnderNone(r, ByPort(Layer1(r)).Keys));
    assert ports[|ports| - 1] in ports;
  }

  /** A piece of f + t that begins `k` places before the end of f. */
  lemma Straddles(f: seq<Result>, t: seq<Result>, before: seq<Result>, block: seq<Result>, v: seq<Result>, k: int)
    requires f + t == before + block + v && k == |f| - |before|
    ensures k <= 0 ==> forall x | x in block :: x in t
    ensures k >= |block| ==> forall x | x in block :: x in f
    ensures 0 < k < |block| ==>
              && (forall x | x in block[..k] :: x in f) && (forall x | x in block[k..] :: x in t)
              && f[|f| - 1] == block[k - 1] && t[0] == block[k]
  {
    var all := before + block + v;
    assert forall i | 0 <= i < |block| :: all[|before| + i] == block[i];
    assert forall i | 0 <= i < |f| :: all[i] == f[i] && f[i] in f;
    assert forall i | 0 <= i < |t| :: all[|f| + i] == t[i] && t[i] in t;
    if 0 < k < |block| {
      assert all[|before| + (k - 1)] == block[k - 1] && all[|before| + k] == block[k];
    }
  }

  /** From the last port on, a block in one piece has one home or lies across the end. */
  lemma FromTheLastPort(r: seq<Result>, ports: seq<string>, a: seq<Result>, block: seq<Result>, b: seq<Result>, before: seq<Result>, v: seq<Result>)
    requires RunIn(r, ports, a, block, b) && ports != []
    requires LastSection(r, ports) + Unhoused(r) == before + block + v
    ensures OneHome(r, block) || exists k :: AcrossTheEnd(r, ports, a, block, b, k)
  {
    var k := |LastSection(r, ports)| - |before|;
    HomesOfSections(r, ports);
    Straddles(LastSection(r, ports), Unhoused(r), before, block, v, k);
    if 0 < k < |block| {
      forall x | x in b && !x.layer1 ensures Home(r, x) != Some(ports[|ports| - 1]) {
        NothingBehind(r, ports, a, block, b, block[k - 1], x);
      }
      forall x | x in a && !x.layer1 ensures Home(r, x) != None {
        NothingBefore(r, ports, a, block, b, block[k], x);
      }
      assert AcrossTheEnd(r, ports, a, block, b, k);
    }
  }

  lemma OnePortIsOneHome(r: seq<Result>, ports: seq<string>, block: seq<Result>)
    requires UnderOne(r, ports, block) && forall p | p in ports :: p in ByPort(Layer1(r))
    ensures OneHome(r, block)
  {}

  lemma NoPortIsOneHome(r: seq<Result>, before: seq<Result>, block: seq<Result>, v: seq<Result>)
    requires Unhoused(r) == before + block + v
    ensures OneHome(r, block)
  {
    FilterMembers(Services(r), UnderNone(r, ByPort(Layer1(r)).Keys));
    forall x | x in block ensures x in Unhoused(r) {
      assert x in before + block + v;
    }
  }

  /** The grouping keeps a run of services in one piece exactly when they have one home, or lie across
      the end of the last port's section. */
  lemma RunTogetherExactly(r: seq<Result>, ports: seq<string>, a: seq<Result>, block: seq<Result>, b: seq<Result>)
    requires RunIn(r, ports, a, block, b)
    ensures Together(Group(r, ports), block) <==> OneHome(r, block) || exists k :: AcrossTheEnd(r, ports, a, block, b, k)
  {
    if Together(Group(r, ports), block) {
      var u, v :| Group(r, ports) == u + block + v;
      Located(r, ports, Unhoused(r), u, block, v);
      if UnderOne(r, ports, block) {
        OnePortIsOneHome(r, ports, block);
      } else {
        var before :| LastSection(r, ports) + Unhoused(r) == before + block + v;
        if ports == [] {
          assert LastSection(r, ports) + Unhoused(r) == Unhoused(r);
          NoPortIsOneHome(r, before, block, v);
        } else {
          FromTheLastPort(r, ports, a, block, b, before, v);
        }
      }
    }
    if OneHome(r, block) {
      OneHomeSuffices(r, ports, a, block, b);
    }
    if k :| AcrossTheEnd(r, ports, a, block, b, k) {
      AcrossTheEndSuffices(r, ports, a, block, b, k);
    }
  }

  // ----- Main theorems -----

  /** A report as the engine orders it, and an L3 block in it. */
  ghost predicate Ordered(links: seq<ScopeLink>, results: seq<Result>, ports: seq<string>, l3: Result) {
    && WellLinked(links) && DistinctIds(results) && Linked(results, links) && PortList(Reorder(results), ports)
    && (forall x | x in results && x.layer1 :: PayloadOf(links, x.id).None?)
    && l3 in results && !l3.layer1 && !Moves(Ids(results), l3)
  }

  function Family(results: seq<Result>, l3: Result): seq<Result> {
    [l3] + Followers(results, l3.id)
  }

  lemma FamilyServices(links: seq<ScopeLink>, results: seq<Result>, ports: seq<string>, l3: Result)
    requires Ordered(links, results, ports, l3)
    ensures NoLayer1(Family(results, l3))
  {
    FilterMembers(results, FollowerOf(Ids(results), l3.id));
  }

  lemma Reordered(links: seq<ScopeLink>, results: seq<Result>, ports: seq<string>, l3: Result)
    requires Ordered(links, results, ports, l3)
    ensures DistinctIds(Reorder(results)) && forall x :: x in results <==> x in Reorder(results)
    ensures forall p :: p in ports <==> p in ByPort(Layer1(Reorder(results)))
  {
    LinkedHasNoChains(results, links);
    ReorderIsPermutation(results);
    SameElements(results, Reorder(results));
    PortsKnown(Reorder(results), ports);
  }

  lemma FamilyRuns(links: seq<ScopeLink>, results: seq<Result>, ports: seq<string>, l3: Result)
    returns (a: seq<Result>, b: seq<Result>)
    requires Ordered(links, results, ports, l3)
    ensures RunIn(Reorder(results), ports, a, Family(results, l3), b)
  {
    Reordered(links, results, ports, l3);
    FamilyServices(links, results, ports, l3);
    a, b := EmitContains(results, results, l3);
  }

  lemma HeadJoins(r: seq<Result>, h: Result, f: seq<Result>, x: Result)
    requires x in f && Home(r, h) == Home(r, x)
    ensures OneHome(r, [h] + f) <==> OneHome(r, f)
  {
    assert forall y :: y in [h] + f <==> y == h || y in f;
  }

  /** The L3 block stands where one of its L2 blocks does. */
  lemma FamilyHome(links: seq<ScopeLink>, results: seq<Result>, ports: seq<string>, l3: Result)
    requires Ordered(links, results, ports, l3)
    ensures OneHome(Reorder(results), Family(results, l3)) <==> OneHome(Reorder(results), Followers(results, l3.id))
  {
    var f := Followers(results, l3.id);
    if f != [] {
      Reordered(links, results, ports, l3);
      assert f[0] in f;
      var x := ParentFromFollower(results, links, Reorder(results), l3, f[0]);
      HeadJoins(Reorder(results), l3, f, x);
    }
  }

  ghost predicate FamilyAcrossTheEnd(results: seq<Result>, ports: seq<string>, l3: Result) {
    exists a, b, k :: Reorder(results) == a + Family(results, l3) + b && AcrossTheEnd(Reorder(results), ports, a, Family(results, l3), b, k)
  }

  /** A run is found at one place only. */
  lemma OnePlace(r: seq<Result>, a: seq<Result>, c: seq<Result>, block: seq<Result>, b: seq<Result>, d: seq<Result>)
    requires DistinctIds(r) && block != [] && r == a + block + b == c + block + d
    ensures a == c && b == d
  {
    assert r[|a|] == block[0] == r[|c|];
    assert |a| == |c|;
    assert a == r[..|a|] && c == r[..|c|];
    assert b == r[|a| + |block|..] && d == r[|c| + |block|..];
  }

  /** Main theorem: in the final order an L3 block is followed at once by exactly its L2 blocks, in
      their original order, if and only if the L2 blocks stand under one port, or all under none that
      has a block, or they lie across the end of the last port's section. */
  lemma TogetherExactly(links: seq<ScopeLink>, results: seq<Result>, ports: seq<string>, l3: Result)
    requires Ordered(links, results, ports, l3)
    ensures forall p | p in ports :: p in ByPort(Layer1(Reorder(results)))
    ensures Together(Group(Reorder(results), ports), Family(results, l3)) <==>
            OneHome(Reorder(results), Followers(results, l3.id)) || FamilyAcrossTheEnd(results, ports, l3)
  {
    var r := Reorder(results);
    var a, b := FamilyRuns(links, results, ports, l3);
    RunTogetherExactly(r, ports, a, Family(results, l3), b);
    FamilyHome(links, results, ports, l3);
    if c, d, k :| r == c + Family(results, l3) + d && AcrossTheEnd(r, ports, c, Family(results, l3), d, k) {
      OnePlace(r, a, c, Family(results, l3), b, d);
    }
  }

  ghost predicate OneParent(results: seq<Result>, block: seq<Result>) {
    forall x, y | x in block && y in block :: Parent(results, x) == Parent(results, y)
  }

  /** L2 blocks have the parent of their own port, whatever the order. */
  lemma FollowerHomes(links: seq<ScopeLink>, results: seq<Result>, ports: seq<string>, l3: Result)
    requires Ordered(links, results, ports, l3)
    ensures forall x | x in Followers(results, l3.id) ::
              Home(Reorder(results), x) == if Parent(results, x).Some? && Parent(results, x).value in ports then Parent(results, x) else None
  {
    Reordered(links, results, ports, l3);
    FilterMembers(results, FollowerOf(Ids(results), l3.id));
  }

  /** A family whose L2 blocks hang off one port stays together; and when every one of them hangs off a
      port that has a block in the report, only then. */
  lemma LinkedBlocksStayTogether(links: seq<ScopeLink>, results: seq<Result>, ports: seq<string>, l3: Result)
    requires Ordered(links, results, ports, l3)
    ensures forall p | p in ports :: p in ByPort(Layer1(Reorder(results)))
    ensures OneParent(results, Followers(results, l3.id)) ==> Together(Group(Reorder(results), ports), Family(results, l3))
    ensures (forall x | x in Followers(results, l3.id) :: Parent(results, x).Some? && Parent(results, x).value in ports) ==>
              (Together(Group(Reorder(results), ports), Family(results, l3)) <==> OneParent(results, Followers(results, l3.id)))
  {
    TogetherExactly(links, results, ports, l3);
    FollowerHomes(links, results, ports, l3);
    if forall x | x in Followers(results, l3.id) :: Parent(results, x).Some? && Parent(results, x).value in ports {
      FamilyHasHomes(links, results, ports, l3);
    }
  }

  /** Two L2 blocks on two ports that have blocks tear any family apart. */
  lemma TwoPortsTearApart(links: seq<ScopeLink>, results: seq<Result>, ports: seq<string>, l3: Result, x: Result, y: Result)
    requires Ordered(links, results, ports, l3) && x in Followers(results, l3.id) && y in Followers(results, l3.id)
    requires Parent(results, x).Some? && Parent(results, x).value in ports
    requires Parent(results, y).Some? && Parent(results, y).value in ports && Parent(results, x) != Parent(results, y)
    ensures forall p | p in ports :: p in ByPort(Layer1(Reorder(results)))
    ensures !Together(Group(Reorder(results), ports), Family(results, l3))
  {
    TogetherExactly(links, results, ports, l3);
    FollowerHomes(links, results, ports, l3);
    if a, b, k :| Reorder(results) == a + Family(results, l3) + b && AcrossTheEnd(Reorder(results), ports, a, Family(results, l3), b, k) {
      OnePortAcross(Reorder(results), ports, a, Family(results, l3), b, k, x);
      OnePortAcross(Reorder(results), ports, a, Family(results, l3), b, k, y);
    }
  }

  /** A block across the end touches no port but the last. */
  lemma OnePortAcross(r: seq<Result>, ports: seq<string>, a: seq<Result>, block: seq<Result>, b: seq<Result>, k: int, x: Result)
    requires AcrossTheEnd(r, ports, a, block, b, k) && x in block
    ensures Home(r, x) == None || Home(r, x) == Some(ports[|ports| - 1])
  {
    assert block == block[..k] + block[k..];
  }

  /** A bridge domain with two access ports: the links of its two L2 sides to one IRB, and two port
      blocks with their ports. */
  datatype Bridge = Bridge(first: ScopeLink, second: ScopeLink, block1: string, block2: string, port1: string, port2: string) {
    predicate Valid() {
      && first.l3 == second.l3 && port1 != port2 && first.l2 != second.l2
      && first.l2 != first.l3 && second.l2 != first.l3
      && block1 != block2 && block1 !in {first.l3, first.l2, second.l2} && block2 !in {first.l3, first.l2, second.l2}
    }

    function Links(): seq<ScopeLink> {
      [first, second]
    }

    function Irb(): Result {
      Result(first.l3, false, Some(L3([MemberFor(first), MemberFor(second)])), [first.irb], [])
    }

    function Access1(): Result {
      Result(first.l2, false, Some(RoleFor(first)), [first.l2Interface], [port1])
    }

    function Access2(): Result {
      Result(second.l2, false, Some(RoleFor(second)), [second.l2Interface], [port2])
    }

    function Results(): seq<Result> {
      [Result(block1, true, None, [port1], [port1]), Result(block2, true, None, [port2], [port2]), Irb(), Access1(), Access2()]
    }
  }

  lemma PayloadOfTwo(l: ScopeLink, m: ScopeLink, id: string)
    ensures LinkOf([l, m], id) == if m.l2 == id then Some(m) else if l.l2 == id then Some(l) else None
    ensures MembersOf([l, m], id) == (if l.l3 == id then [MemberFor(l)] else []) + if m.l3 == id then [MemberFor(m)] else []
  {
    assert [l, m][..1] == [l] && [l][..0] == [];
    assert LinkOf([l], id) == if l.l2 == id then Some(l) else None;
    assert MembersOf([l], id) == if l.l3 == id then [MemberFor(l)] else [];
  }

  lemma OneOfFive(d: Bridge, x: Result)
    requires x in d.Results()
    ensures var r := d.Results(); x == r[0] || x == r[1] || x == d.Irb() || x == d.Access1() || x == d.Access2()
  {}

  lemma BridgeIsLinked(d: Bridge)
    requires d.Valid()
    ensures WellLinked(d.Links()) && Linked(d.Results(), d.Links())
    ensures forall x | x in d.Results() && x.layer1 :: PayloadOf(d.Links(), x.id).None?
  {
    forall x | x in d.Results()
      ensures x.link == if x.layer1 then None else PayloadOf(d.Links(), x.id)
      ensures x.layer1 ==> PayloadOf(d.Links(), x.id).None?
    {
      OneOfFive(d, x);
      PayloadOfTwo(d.first, d.second, x.id);
      assert [MemberFor(d.first)] + [MemberFor(d.second)] == [MemberFor(d.first), MemberFor(d.second)];
    }
  }

  lemma BridgeIsOrdered(d: Bridge, ports: seq<string>)
    requires d.Valid() && PortList(Reorder(d.Results()), ports)
    ensures Ordered(d.Links(), d.Results(), ports, d.Irb())
  {
    BridgeIsLinked(d);
    BridgeIds(d);
    assert d.Results()[2] in d.Results();
  }

  lemma BridgeIds(d: Bridge)
    requires d.Valid()
    ensures DistinctIds(d.Results())
  {}

  lemma BridgeFamily(d: Bridge)
    requires d.Valid()
    ensures d.Access1() in Followers(d.Results(), d.first.l3) && d.Access2() in Followers(d.Results(), d.first.l3)
  {
    var r := d.Results();
    FilterMembers(r, FollowerOf(Ids(r), d.first.l3));
    assert r[2] in r && r[3] in r && r[4] in r;
  }

  lemma PortIsListed(links: seq<ScopeLink>, results: seq<Result>, ports: seq<string>, l3: Result, x: Result)
    requires Ordered(links, results, ports, l3) && x in results && x.layer1
    ensures PortOf(x) in ports
  {
    Reordered(links, results, ports, l3);
    ByPortFinds(Layer1(Reorder(results)));
    FilterMembers(Reorder(results), IsLayer1());
  }

  lemma BridgePorts(d: Bridge, ports: seq<string>)
    requires d.Valid() && PortList(Reorder(d.Results()), ports)
    ensures d.port1 in ports && d.port2 in ports
  {
    var r := d.Results();
    BridgeIsOrdered(d, ports);
    assert r[0] in r && r[1] in r;
    PortIsListed(d.Links(), r, ports, d.Irb(), r[0]);
    PortIsListed(d.Links(), r, ports, d.Irb(), r[1]);
  }

  /** Every such bridge domain is torn apart in the report. */
  lemma BridgeIsTornApart(d: Bridge, ports: seq<string>)
    requires d.Valid() && PortList(Reorder(d.Results()), ports)
    ensures forall p | p in ports :: p in ByPort(Layer1(Reorder(d.Results())))
    ensures !Together(Group(Reorder(d.Results()), ports), Family(d.Results(), d.Irb()))
  {
    BridgeIsOrdered(d, ports);
    BridgeFamily(d);
    BridgePorts(d, ports);
    TwoPortsTearApart(d.Links(), d.Results(), ports, d.Irb(), d.Access1(), d.Access2());
  }

  lemma FamilyHasHomes(links: seq<ScopeLink>, results: seq<Result>, ports: seq<string>, l3: Result)
    requires Ordered(links, results, ports, l3)
    requires forall x | x in Followers(results, l3.id) :: Home(Reorder(results), x) != None
    ensures !FamilyAcrossTheEnd(results, ports, l3)
  {
    var block := Family(results, l3);
    forall a, b, k ensures !AcrossTheEnd(Reorder(results), ports, a, block, b, k) {
      if 0 < k < |block| {
        assert block[k] in block[k..] && block[k] == Followers(results, l3.id)[k - 1];
      }
    }
  }
}
