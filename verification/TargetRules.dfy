/** Exactly what probes/ping.py pings, told from the fields of the scopes and of the neighbor tables. */
module TargetRules {
  import opened Wrappers
  import opened Seqs
  import opened Ip
  import opened PingTargets

  // ----- Addresses -----

  function Width(f: Family): nat {
    if f.V4? then 32 else 128
  }

  /** The number of addresses of a subnet. */
  function SizeOf(i: Iface): nat {
    Pow2(Width(i.ip.family) - i.plen)
  }

  /** The same first `plen` bits. */
  predicate InSubnetOf(a: Addr, i: Iface) {
    a.family == i.ip.family && a.value / SizeOf(i) == i.ip.value / SizeOf(i)
  }

  lemma {:induction false} Times(a: nat, b: nat, size: nat)
    requires a < b
    ensures a * size + size <= b * size
    decreases b - a
  {
    if a + 1 < b {
      Times(a, b - 1, size);
    }
    assert b * size == (b - 1) * size + size;
  }

  lemma SameQuotient(v: nat, x: nat, size: nat)
    requires size >= 1
    ensures AlignDown(v, size) <= x < AlignDown(v, size) + size <==> x / size == v / size
  {
    var q, k := v / size, x / size;
    assert AlignDown(v, size) == q * size && x == k * size + x % size;
    if k < q {
      Times(k, q, size);
    } else if k > q {
      Times(q, k, size);
    }
  }

  lemma Edges(v: nat, x: nat, size: nat)
    requires size >= 1 && x / size == v / size
    ensures x - AlignDown(v, size) == x % size
  {
    assert x == (x / size) * size + x % size;
  }

  lemma SubnetIs(i: Iface, a: Addr)
    ensures Network(i).Contains(a) <==> InSubnetOf(a, i)
  {
    if a.family == i.ip.family {
      SameQuotient(i.ip.value, a.value, SizeOf(i));
    }
  }

  /** 169.254.0.0 to 169.254.255.255, and fe80:: up to before fec0::. */
  predicate IsLinkLocal(a: Addr) {
    if a.family.V4? then 0xA9FE_0000 <= a.value <= 0xA9FE_FFFF
    else 0xFE80_0000_0000_0000_0000_0000_0000_0000 <= a.value < 0xFEC0_0000_0000_0000_0000_0000_0000_0000
  }

  lemma LinkLocalIs(a: Addr)
    ensures LinkLocal(a) <==> IsLinkLocal(a)
  {}

  predicate LinkLocalHost(t: Text) {
    t.Host? && IsLinkLocal(t.ip)
  }

  // ----- What qualifies -----

  predicate Listed(configs: seq<Config>, a: Addr) {
    exists c | c in configs :: c.Some? && c.value.ip == a
  }

  /** An address of the scope in this family, or a virtual gateway. */
  predicate OwnAddress(s: Scope, f: Family, t: Text) {
    t.Host? && if f.V4? then Listed(s.local4, t.ip) || Listed(s.gateway4, t.ip) else Listed(s.local6, t.ip) || Listed(s.gateway6, t.ip)
  }

  lemma OwnIs(s: Scope, f: Family, t: Text)
    ensures IsOwn(t, s.Own(f)) <==> OwnAddress(s, f, t)
  {
    if t.Host? {
      var configs := s.Local(f) + if f.V4? then s.gateway4 else s.gateway6;
      if t.ip in s.Own(f) {
        var i :| 0 <= i < |configs| && configs[i].Some? && configs[i].value.ip == t.ip;
        assert configs[i] in configs;
      }
      if c :| c in configs && c.Some? && c.value.ip == t.ip {
        var k :| 0 <= k < |configs| && configs[k] == c;
      }
    }
  }

  predicate InSubnets(configs: seq<Config>, a: Addr) {
    exists c | c in configs :: c.Some? && InSubnetOf(a, c.value)
  }

  lemma SubnetsAre(configs: seq<Config>, a: Addr)
    ensures InNetworks(a, configs) <==> InSubnets(configs, a)
  {
    if InNetworks(a, configs) {
      var k :| 0 <= k < |configs| && configs[k].Some? && Network(configs[k].value).Contains(a);
      SubnetIs(configs[k].value, a);
      assert configs[k] in configs;
    }
    if c :| c in configs && c.Some? && InSubnetOf(a, c.value) {
      SubnetIs(c.value, a);
      var k :| 0 <= k < |configs| && configs[k] == c;
    }
  }

  predicate Remote(e: Neighbor) {
    |e.learnedVia| >= 6 && e.learnedVia[..6] == ".local"
  }

  lemma RemoteIs(e: Neighbor)
    ensures RemoteLearned(e) <==> Remote(e)
  {}

  /** A configured BGP neighbor. */
  predicate BgpCandidate(s: Scope, f: Family, t: Text) {
    t in s.neighbors && t.Host? && t.ip.family == f && !IsLinkLocal(t.ip) && !OwnAddress(s, f, t)
  }

  /** A line of a table that may be trusted: ND demands a hardware address and a finished state. */
  predicate Trusted(f: Family, e: Neighbor) {
    !Remote(e) && (f.V6? ==> e.mac != "" && e.mac != "none" && e.state != "unreachable" && e.state != "incomplete")
  }

  /** A host that the old box knew in one of the scope's subnets. */
  predicate BaselineCandidate(s: Scope, t: Tables, f: Family, e: Neighbor) {
    && e in (if f.V4? then t.oldArp else t.oldNd)
    && e.ip.Some? && e.ip.value.Host? && e.ip.value.ip.family == f && !IsLinkLocal(e.ip.value.ip)
    && InSubnets(if f.V4? then s.local4 else s.local6, e.ip.value.ip)
    && Trusted(f, e) && !OwnAddress(s, f, e.ip.value)
  }

  /** A neighbor on one of the scope's interfaces.  Link-local IPv6 ones count only for a scope that has
      a link-local address itself. */
  predicate TableCandidate(s: Scope, t: Tables, f: Family, e: Neighbor) {
    && e in (if f.V4? then t.arp else t.nd)
    && (e.iface in s.interfaces || e.iface in s.physical)
    && e.ip.Some? && Trusted(f, e) && !OwnAddress(s, f, e.ip.value)
    && (f.V6? && LinkLocalHost(e.ip.value) ==> exists c | c in s.local6 :: c.Some? && IsLinkLocal(c.value.ip))
  }

  lemma BgpIs(s: Scope, f: Family, t: Text)
    ensures t in BgpAddresses(s, f) <==> BgpCandidate(s, f, t)
  {
    OwnIs(s, f, t);
    if t.Host? {
      LinkLocalIs(t.ip);
    }
  }

  lemma BaselineIs(s: Scope, t: Tables, f: Family, e: Neighbor)
    ensures e in BaselineEntries(s, t, f) <==> BaselineCandidate(s, t, f, e)
  {
    FilterMembers(t.Old(f), (e: Neighbor) => InScope(s, f, e) && !LinkLocalText(e.ip.value) && !RemoteLearned(e)
                              && (f.V6? ==> UsableNd(e)) && !IsOwn(e.ip.value, s.Own(f)));
    RemoteIs(e);
    if e.ip.Some? && e.ip.value.Host? {
      OwnIs(s, f, e.ip.value);
      LinkLocalIs(e.ip.value.ip);
      SubnetsAre(s.Local(f), e.ip.value.ip);
    }
  }

  lemma KeepsLinkLocalIs(s: Scope)
    ensures KeepsLinkLocal(s) <==> exists c | c in s.local6 :: c.Some? && IsLinkLocal(c.value.ip)
  {
    if KeepsLinkLocal(s) {
      var k :| 0 <= k < |s.local6| && s.local6[k].Some? && LinkLocal(s.local6[k].value.ip);
      LinkLocalIs(s.local6[k].value.ip);
      assert s.local6[k] in s.local6;
    }
    if c :| c in s.local6 && c.Some? && IsLinkLocal(c.value.ip) {
      LinkLocalIs(c.value.ip);
      var k :| 0 <= k < |s.local6| && s.local6[k] == c;
    }
  }

  lemma TableIs(s: Scope, t: Tables, f: Family, e: Neighbor)
    ensures e in TableEntries(s, t, f) <==> TableCandidate(s, t, f, e)
  {
    FilterMembers(t.Current(f), (e: Neighbor) => MatchesInterface(s, e.iface) && e.ip.Some? && !RemoteLearned(e)
                              && (f.V6? ==> UsableNd(e) && (KeepsLinkLocal(s) || !LinkLocalText(e.ip.value)))
                              && !IsOwn(e.ip.value, s.Own(f)));
    RemoteIs(e);
    KeepsLinkLocalIs(s);
    if e.ip.Some? {
      OwnIs(s, f, e.ip.value);
      if e.ip.value.Host? {
        LinkLocalIs(e.ip.value.ip);
      }
    }
  }

  // ----- Fallbacks -----

  /** A host known behind a remote PE, by the old box in one of the scope's subnets or by the new one on
      one of its interfaces. */
  predicate Evidence(s: Scope, t: Tables, f: Family, e: Neighbor) {
    && Remote(e) && e.ip.Some? && e.ip.value.Host?
    && if e in (if f.V4? then t.arp else t.nd) && (e.iface in s.interfaces || e.iface in s.physical) then true
       else e in (if f.V4? then t.oldArp else t.oldNd) && e.ip.value.ip.family == f
            && InSubnets(if f.V4? then s.local4 else s.local6, e.ip.value.ip)
  }

  lemma EvidenceIs(s: Scope, t: Tables, f: Family, a: Addr)
    ensures a in RemoteEvidence(s, t, f) <==> exists e :: Evidence(s, t, f, e) && e.ip == Some(Host(a))
  {
    var p := (e: Neighbor) => InScope(s, f, e) && RemoteLearned(e);
    var q := (e: Neighbor) => MatchesInterface(s, e.iface) && e.ip.Some? && e.ip.value.Host? && RemoteLearned(e);
    FilterMembers(t.Old(f), p);
    FilterMembers(t.Current(f), q);
    forall e: Neighbor ensures (e in Filter(t.Old(f), p) || e in Filter(t.Current(f), q)) <==> Evidence(s, t, f, e) {
      RemoteIs(e);
      if e.ip.Some? && e.ip.value.Host? {
        SubnetsAre(s.Local(f), e.ip.value.ip);
      }
    }
    MapMembers(Filter(t.Old(f), p), Filter(t.Current(f), q), a);
  }

  lemma MapMembers(x: seq<Neighbor>, y: seq<Neighbor>, a: Addr)
    requires forall e | e in x || e in y :: e.ip.Some? && e.ip.value.Host?
    ensures a in Map(x, IpOf) + Map(y, IpOf) <==> exists e :: (e in x || e in y) && e.ip == Some(Host(a))
  {}

  /** Something is known in this subnet: a neighbor that is pinged, or evidence. */
  ghost predicate Known(s: Scope, t: Tables, f: Family, i: Iface) {
    exists e :: (TableCandidate(s, t, f, e) || Evidence(s, t, f, e)) && e.ip.value.Host? && InSubnetOf(e.ip.value.ip, i)
  }

  lemma KnownIs(s: Scope, t: Tables, f: Family, i: Iface)
    ensures InSubnet(Network(i), Taken(s, t, f)) <==> Known(s, t, f, i)
  {
    if a :| a in Taken(s, t, f) && Network(i).Contains(a) {
      SubnetIs(i, a);
      EvidenceIs(s, t, f, a);
      if a in Parsed(TableEntries(s, t, f)) {
        var e :| e in TableEntries(s, t, f) && TextOf(e) == Host(a);
        TableIs(s, t, f, e);
      }
    }
    if e :| (TableCandidate(s, t, f, e) || Evidence(s, t, f, e)) && e.ip.value.Host? && InSubnetOf(e.ip.value.ip, i) {
      SubnetIs(i, e.ip.value.ip);
      EvidenceIs(s, t, f, e.ip.value.ip);
      TableIs(s, t, f, e);
      ParsedHas(TableEntries(s, t, f), e);
      assert e.ip == Some(Host(e.ip.value.ip));
    }
  }

  lemma ParsedHas(entries: seq<Neighbor>, e: Neighbor)
    requires e.ip.Some? && e.ip.value.Host?
    ensures e in entries ==> e.ip.value.ip in Parsed(entries)
  {
    FilterMembers(entries, (e: Neighbor) => e.ip.Some? && e.ip.value.Host?);
  }

  /** A free address of a subnet: not the configured one, not an own one, and in IPv4 not the first or
      the last of a subnet that has those. */
  predicate Free(s: Scope, f: Family, i: Iface, a: Addr) {
    var size := SizeOf(i);
    && InSubnetOf(a, i) && a != i.ip && !OwnAddress(s, f, Host(a))
    && (f.V4? && i.plen < Width(i.ip.family) - 1 ==> a.value % size != 0 && a.value % size != size - 1)
  }

  lemma FreeIs(s: Scope, f: Family, i: Iface, a: Addr)
    ensures Usable(i, f, s.Own(f), a) <==> Free(s, f, i, a)
  {
    SubnetIs(i, a);
    OwnIs(s, f, Host(a));
    var size := SizeOf(i);
    if InSubnetOf(a, i) {
      Edges(i.ip.value, a.value, size);
    }
  }

  /** The subnet is point-to-point, and `a` its lowest free address. */
  ghost predicate LowestFree(s: Scope, f: Family, i: Iface, a: Addr) {
    && (if f.V4? then 30 else 126) <= i.plen < Width(i.ip.family)
    && Free(s, f, i, a) && forall b | Free(s, f, i, b) :: a.value <= b.value
  }

  lemma LowestIs(s: Scope, f: Family, i: Iface, a: Addr)
    ensures FallbackIn(Some(i), f, s.Own(f)) == Some(a) <==> LowestFree(s, f, i, a)
  {
    forall b { FreeIs(s, f, i, b); }
    FallbackIsLeast(i, f, s.Own(f));
    assert Fallback([Some(i)], f, s.Own(f)) == FallbackIn(Some(i), f, s.Own(f)) by {
      OnlyOneSubnet(Some(i), f, s.Own(f));
    }
    if LowestFree(s, f, i, a) {
      var r := FallbackIn(Some(i), f, s.Own(f));
      assert r.Some? && r.value.value == a.value && r.value.family == a.family;
    }
  }

  function Locals(s: Scope, f: Family): seq<Config> {
    if f.V4? then s.local4 else s.local6
  }

  /** The k-th configured address asks for a fallback and gets `a`: nothing is known in its subnet, and no
      earlier one got an address inside it. */
  ghost predicate Gets(s: Scope, t: Tables, f: Family, k: nat, a: Addr)
    decreases k, 1
  {
    && k < |Locals(s, f)| && Locals(s, f)[k].Some?
    && LowestFree(s, f, Locals(s, f)[k].value, a)
    && !Known(s, t, f, Locals(s, f)[k].value)
    && !Served(s, t, f, k, Locals(s, f)[k].value)
  }

  /** One of the first k configured addresses got an address in this subnet. */
  ghost predicate Served(s: Scope, t: Tables, f: Family, k: nat, i: Iface)
    decreases k, 0
  {
    exists j: nat, b :: j < k && InSubnetOf(b, i) && Gets(s, t, f, j, b)
  }

  ghost predicate Issued(s: Scope, t: Tables, f: Family, n: nat, p: (Net, Addr)) {
    exists k: nat :: k < n && Gets(s, t, f, k, p.1) && p.0 == Network(Locals(s, f)[k].value)
  }

  function FirstFallbacks(s: Scope, t: Tables, f: Family, n: nat): seq<(Net, Addr)>
    requires n <= |Locals(s, f)|
  {
    Fallbacks(Locals(s, f)[..n], f, s.Own(f), Taken(s, t, f))
  }

  lemma FallbacksSnoc(s: Scope, t: Tables, f: Family, n: nat)
    requires n < |Locals(s, f)|
    ensures
      var before, last := FirstFallbacks(s, t, f, n), Locals(s, f)[n];
      FirstFallbacks(s, t, f, n + 1) ==
      if last.None? || Covered(Network(last.value), before, Taken(s, t, f)) || FallbackIn(last, f, s.Own(f)).None? then before
      else before + [(Network(last.value), FallbackIn(last, f, s.Own(f)).value)]
  {
    assert Locals(s, f)[..n + 1][..n] == Locals(s, f)[..n];
  }

  lemma LastFallback(s: Scope, t: Tables, f: Family, n: nat, p: (Net, Addr))
    requires n < |Locals(s, f)|
    requires var last := Locals(s, f)[n]; last.Some? ==>
               (Covered(Network(last.value), FirstFallbacks(s, t, f, n), Taken(s, t, f)) <==>
                Known(s, t, f, last.value) || Served(s, t, f, n, last.value))
    ensures p in FirstFallbacks(s, t, f, n + 1) <==>
            p in FirstFallbacks(s, t, f, n) || (Gets(s, t, f, n, p.1) && p.0 == Network(Locals(s, f)[n].value))
  {
    FallbacksSnoc(s, t, f, n);
    if Locals(s, f)[n].Some? {
      LowestIs(s, f, Locals(s, f)[n].value, p.1);
    }
  }

  lemma {:induction false} FallbacksAre(s: Scope, t: Tables, f: Family, n: nat, p: (Net, Addr))
    requires n <= |Locals(s, f)|
    ensures p in FirstFallbacks(s, t, f, n) <==> Issued(s, t, f, n, p)
    decreases n, 0
  {
    if n > 0 {
      FallbacksAre(s, t, f, n - 1, p);
      if Locals(s, f)[n - 1].Some? {
        KnownIs(s, t, f, Locals(s, f)[n - 1].value);
        CoveredIs(s, t, f, n - 1, Locals(s, f)[n - 1].value);
      }
      LastFallback(s, t, f, n - 1, p);
      LastIssued(s, t, f, n - 1, p);
    }
  }

  lemma LastIssued(s: Scope, t: Tables, f: Family, n: nat, p: (Net, Addr))
    requires n < |Locals(s, f)|
    ensures Issued(s, t, f, n + 1, p) <==>
            Issued(s, t, f, n, p) || (Gets(s, t, f, n, p.1) && p.0 == Network(Locals(s, f)[n].value))
  {}

  lemma CoveredIs(s: Scope, t: Tables, f: Family, n: nat, i: Iface)
    requires n <= |Locals(s, f)|
    ensures (exists p | p in FirstFallbacks(s, t, f, n) :: Network(i).Contains(p.1)) <==> Served(s, t, f, n, i)
    decreases n, 1
  {
    if p :| p in FirstFallbacks(s, t, f, n) && Network(i).Contains(p.1) {
      FallbacksAre(s, t, f, n, p);
      SubnetIs(i, p.1);
    }
    if k: nat, b :| k < n && InSubnetOf(b, i) && Gets(s, t, f, k, b) {
      var p := (Network(Locals(s, f)[k].value), b);
      FallbacksAre(s, t, f, n, p);
      SubnetIs(i, b);
    }
  }

  // ----- The rules -----

  predicate Belongs(x: Target, s: Scope, f: Family) {
    && x.scope == s.id && x.family == f
    && x.instance == if s.serviceType == "IPVPN" && |s.instances| > 0 then Some(s.instances[0]) else None
  }

  ghost predicate NoBgpCandidate(s: Scope, f: Family) {
    forall y :: !BgpCandidate(s, f, y)
  }

  ghost predicate NoBaselineCandidate(s: Scope, t: Tables, f: Family) {
    forall e :: !BaselineCandidate(s, t, f, e)
  }

  ghost predicate FromBaseline(s: Scope, t: Tables, f: Family, x: Target) {
    x.iface == None && exists e :: BaselineCandidate(s, t, f, e) && e.ip == Some(x.target)
  }

  /** A link-local IPv6 target carries its interface. */
  ghost predicate FromTable(s: Scope, t: Tables, f: Family, x: Target) {
    exists e :: TableCandidate(s, t, f, e) && e.ip == Some(x.target)
                && x.iface == if f.V6? && LinkLocalHost(x.target) then Some(e.iface) else None
  }

  ghost predicate FromSubnet(s: Scope, t: Tables, f: Family, x: Target) {
    x.iface == None && x.target.Host? && exists k: nat :: Gets(s, t, f, k, x.target.ip)
  }

  /** Why a target is pinged for a scope in a family: a BGP neighbor; without one, a host that the old box
      knew; without either, a neighbor in the table, or the free address of a silent subnet. */
  ghost predicate Rule(s: Scope, t: Tables, f: Family, x: Target) {
    Belongs(x, s, f) &&
    match x.origin
    case Bgp => BgpCandidate(s, f, x.target) && x.iface == None
    case Baseline => NoBgpCandidate(s, f) && FromBaseline(s, t, f, x)
    case Table => NoBgpCandidate(s, f) && NoBaselineCandidate(s, t, f) && FromTable(s, t, f, x)
    case SubnetFallback => NoBgpCandidate(s, f) && NoBaselineCandidate(s, t, f) && FromSubnet(s, t, f, x)
  }

  lemma NoBgp(s: Scope, f: Family)
    ensures BgpAddresses(s, f) == [] <==> NoBgpCandidate(s, f)
  {
    forall y { BgpIs(s, f, y); }
    if BgpAddresses(s, f) != [] {
      assert BgpAddresses(s, f)[0] in BgpAddresses(s, f);
    }
  }

  lemma NoBaseline(s: Scope, t: Tables, f: Family)
    ensures BaselineEntries(s, t, f) == [] <==> NoBaselineCandidate(s, t, f)
  {
    forall e { BaselineIs(s, t, f, e); }
    if BaselineEntries(s, t, f) != [] {
      assert BaselineEntries(s, t, f)[0] in BaselineEntries(s, t, f);
    }
  }

  lemma BgpTier(s: Scope, t: Tables, f: Family, x: Target)
    requires BgpAddresses(s, f) != []
    ensures x in FamilyTargets(s, t, f) <==> Rule(s, t, f, x)
  {
    NoBgp(s, f);
    BgpIs(s, f, x.target);
    if x in FamilyTargets(s, t, f) {
      var y :| y in BgpAddresses(s, f) && x == Target(s.id, y, s.Instance(), Bgp, f, None);
    }
  }

  lemma BaselineMembers(s: Scope, t: Tables, f: Family, x: Target)
    requires BgpAddresses(s, f) == [] && BaselineEntries(s, t, f) != []
    ensures x in FamilyTargets(s, t, f) <==>
            exists e | e in BaselineEntries(s, t, f) :: x == Target(s.id, TextOf(e), s.Instance(), Baseline, f, None)
  {}

  lemma BaselineTier(s: Scope, t: Tables, f: Family, x: Target)
    requires BgpAddresses(s, f) == [] && BaselineEntries(s, t, f) != []
    ensures x in FamilyTargets(s, t, f) <==> Rule(s, t, f, x)
  {
    NoBgp(s, f);
    NoBaseline(s, t, f);
    BaselineMembers(s, t, f, x);
    forall e { BaselineIs(s, t, f, e); }
  }

  lemma TableMembers(s: Scope, t: Tables, f: Family, x: Target)
    ensures x in TableTargets(s, t, f) <==>
            exists e | e in TableEntries(s, t, f) ::
              x == Target(s.id, TextOf(e), s.Instance(), Table, f, if f.V6? && LinkLocalText(TextOf(e)) then Some(e.iface) else None)
  {}

  lemma TableTier(s: Scope, t: Tables, f: Family, x: Target)
    requires x.origin.Table?
    ensures x in TableTargets(s, t, f) <==> Belongs(x, s, f) && FromTable(s, t, f, x)
  {
    if x.target.Host? {
      LinkLocalIs(x.target.ip);
    }
    TableMembers(s, t, f, x);
    forall e { TableIs(s, t, f, e); }
  }

  lemma FallbackMembers(s: Scope, f: Family, r: seq<(Net, Addr)>, x: Target)
    ensures x in FallbackTargets(s, f, r) <==>
            exists p | p in r :: x == Target(s.id, Host(p.1), s.Instance(), Origin.SubnetFallback, f, None)
  {
    forall p | p in r ensures FallbackTarget(s, f)(p) in FallbackTargets(s, f, r) {}
  }

  lemma FallbackTier(s: Scope, t: Tables, f: Family, x: Target)
    requires x.origin.SubnetFallback?
    ensures x in FallbackTargets(s, f, Fallbacks(s.Local(f), f, s.Own(f), Taken(s, t, f))) <==>
            Belongs(x, s, f) && FromSubnet(s, t, f, x)
  {
    var n := |Locals(s, f)|;
    var r := FirstFallbacks(s, t, f, n);
    assert Locals(s, f)[..n] == s.Local(f);
    FallbackMembers(s, f, r, x);
    if p :| p in r && x == Target(s.id, Host(p.1), s.Instance(), Origin.SubnetFallback, f, None) {
      FallbacksAre(s, t, f, n, p);
    }
    if FromSubnet(s, t, f, x) {
      var k: nat :| Gets(s, t, f, k, x.target.ip);
      FallbacksAre(s, t, f, n, (Network(Locals(s, f)[k].value), x.target.ip));
    }
  }

  lemma LastTierMembers(s: Scope, t: Tables, f: Family, x: Target)
    requires BgpAddresses(s, f) == [] && BaselineEntries(s, t, f) == []
    ensures x in FamilyTargets(s, t, f) <==>
            match x.origin
            case Table => x in TableTargets(s, t, f)
            case SubnetFallback => x in FallbackTargets(s, f, Fallbacks(s.Local(f), f, s.Own(f), Taken(s, t, f)))
            case _ => false
  {}

  lemma LastTierRule(s: Scope, t: Tables, f: Family, x: Target)
    requires BgpAddresses(s, f) == [] && BaselineEntries(s, t, f) == []
    ensures x in FamilyTargets(s, t, f) <==> Rule(s, t, f, x)
  {
    NoBgp(s, f);
    NoBaseline(s, t, f);
    LastTierMembers(s, t, f, x);
    if x.origin.Table? {
      TableTier(s, t, f, x);
    } else if x.origin.SubnetFallback? {
      FallbackTier(s, t, f, x);
    }
  }

  lemma FamilyRule(s: Scope, t: Tables, f: Family, x: Target)
    ensures x in FamilyTargets(s, t, f) <==> Rule(s, t, f, x)
  {
    if BgpAddresses(s, f) != [] {
      BgpTier(s, t, f, x);
    } else if BaselineEntries(s, t, f) != [] {
      BaselineTier(s, t, f, x);
    } else {
      LastTierRule(s, t, f, x);
    }
  }

  /** Services that are pinged at all. */
  predicate IsPinged(s: Scope) {
    (s.serviceType == "Internet" || s.serviceType == "IPVPN") && s.serviceSubtype != "multicast" && s.serviceSubtype != "mvpn"
  }

  lemma ScopeRule(s: Scope, t: Tables, x: Target)
    ensures x in ScopeTargets(s, t) <==> IsPinged(s) && Rule(s, t, x.family, x)
  {
    FamilyRule(s, t, V4, x);
    FamilyRule(s, t, V6, x);
  }

  ghost predicate Pings(s: Scope, t: Tables, x: Target) {
    IsPinged(s) && Rule(s, t, x.family, x)
  }

  lemma TargetsSnoc(scopes: seq<Scope>, t: Tables, x: Target)
    requires scopes != []
    ensures x in AllTargets(scopes, t) <==>
            x in AllTargets(scopes[..|scopes| - 1], t) || x in ScopeTargets(scopes[|scopes| - 1], t)
  {}

  lemma PingsSnoc(scopes: seq<Scope>, t: Tables, x: Target)
    requires scopes != []
    ensures (exists s | s in scopes :: Pings(s, t, x)) <==>
            (exists s | s in scopes[..|scopes| - 1] :: Pings(s, t, x)) || Pings(scopes[|scopes| - 1], t, x)
  {
    assert scopes == scopes[..|scopes| - 1] + [scopes[|scopes| - 1]];
  }

  /** Main theorem: a target is pinged if and only if some pinged scope has it by the rules. */
  lemma {:induction false} TargetsExactly(scopes: seq<Scope>, t: Tables, x: Target)
    ensures x in AllTargets(scopes, t) <==> exists s | s in scopes :: Pings(s, t, x)
  {
    if scopes != [] {
      TargetsExactly(scopes[..|scopes| - 1], t, x);
      TargetsSnoc(scopes, t, x);
      PingsSnoc(scopes, t, x);
      ScopeRule(scopes[|scopes| - 1], t, x);
    }
  }
}
