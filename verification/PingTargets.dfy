/** Where to ping: probes/ping.py resolves targets in tiers, and checks/reachability.py explains
the subnets that were left without one. */
module PingTargets {
  import opened Wrappers
  import opened Seqs
  import opened Ip

  const IPV6_FALLBACK_MIN_PREFIX := 126
  const IPV4_FALLBACK_MIN_PREFIX := 30

  function MinPrefix(f: Family): nat {
    if f.V4? then IPV4_FALLBACK_MIN_PREFIX else IPV6_FALLBACK_MIN_PREFIX
  }

  /** A configured address, None when the text does not parse. */
  type Config = Option<Iface>

  function OwnIps(configs: seq<Config>): (r: set<Addr>)
    ensures forall i | 0 <= i < |configs| && configs[i].Some? :: configs[i].value.ip in r
  {
    set i | 0 <= i < |configs| && configs[i].Some? :: configs[i].value.ip
  }

  // ----- Fallback inside one subnet -----

  /** Subnets the fallback looks into: more than one address, and not larger than point-to-point. */
  predicate Eligible(i: Iface, family: Family) {
    i.plen < i.ip.family.Bits() && i.plen >= MinPrefix(family)
  }

  /** An address the fallback may return.  IPv4 excludes the network and broadcast addresses, except
      on a /31 (section 2.1 of RFC 3021); IPv6 has neither, its zero address being the
      subnet-router anycast address (section 2.6.1 of RFC 4291). */
  predicate Usable(i: Iface, family: Family, owned: set<Addr>, c: Addr) {
    var net := Network(i);
    && net.Contains(c) && c != i.ip && c !in owned
    && !(family.V4? && i.plen < i.ip.family.Bits() - 1 && (c.value == net.base || c.value == net.base + net.Size() - 1))
  }

  function LeastUsable(i: Iface, family: Family, owned: set<Addr>, from: nat): (r: Option<Addr>)
    requires Network(i).base <= from <= Network(i).base + Network(i).Size()
    ensures r.Some? ==> Usable(i, family, owned, r.value) && from <= r.value.value
    ensures forall c | Usable(i, family, owned, c) && from <= c.value :: r.Some? && r.value.value <= c.value
    decreases Network(i).base + Network(i).Size() - from
  {
    if from == Network(i).base + Network(i).Size() then None
    else if Usable(i, family, owned, Addr(i.ip.family, from)) then Some(Addr(i.ip.family, from))
    else LeastUsable(i, family, owned, from + 1)
  }

  /** The answer for one configured address. */
  function FallbackIn(c: Config, family: Family, owned: set<Addr>): Option<Addr> {
    if c.Some? && Eligible(c.value, family) then LeastUsable(c.value, family, owned, Network(c.value).base) else None
  }

  function Fallback(addresses: seq<Config>, family: Family, owned: set<Addr>): Option<Addr> {
    if addresses == [] then None
    else if FallbackIn(addresses[0], family, owned).Some? then FallbackIn(addresses[0], family, owned)
    else Fallback(addresses[1..], family, owned)
  }

  /** The scan of one subnet, lowest address first. */
  method FirstUsable(i: Iface, family: Family, owned: set<Addr>) returns (r: Option<Addr>)
    ensures r == LeastUsable(i, family, owned, Network(i).base)
  {
    var net := Network(i);
    var v := net.base;
    while v < net.base + net.Size()
      invariant net.base <= v <= net.base + net.Size()
      invariant LeastUsable(i, family, owned, net.base) == LeastUsable(i, family, owned, v)
    {
      if Usable(i, family, owned, Addr(i.ip.family, v)) {
        return Some(Addr(i.ip.family, v));
      }
      v := v + 1;
    }
    r := None;
  }

  method CollectOwnIps(configs: seq<Config>) returns (ips: set<Addr>)
    ensures ips == OwnIps(configs)
  {
    ips := {};
    for k := 0 to |configs|
      invariant ips == OwnIps(configs[..k])
    {
      if configs[k].Some? {
        ips := ips + {configs[k].value.ip};
      }
      assert forall i | 0 <= i < k :: configs[..k + 1][i] == configs[..k][i];
    }
    assert configs[..|configs|] == configs;
  }

  method SubnetFallback(addresses: seq<Config>, family: Family, owned: seq<Config>) returns (r: Option<Addr>)
    ensures r == Fallback(addresses, family, OwnIps(owned))
  {
    var ownedIps := CollectOwnIps(owned);
    for k := 0 to |addresses|
      invariant Fallback(addresses, family, ownedIps) == Fallback(addresses[k..], family, ownedIps)
    {
      assert addresses[k..][0] == addresses[k] && addresses[k..][1..] == addresses[k + 1..];
      if addresses[k].None? || !Eligible(addresses[k].value, family) {
        continue;
      }
      r := FirstUsable(addresses[k].value, family, ownedIps);
      if r.Some? {
        return;
      }
    }
    r := None;
  }

  /** The fallback of one address is the least usable address of its subnet, and None exactly when
      the subnet is not eligible or holds none. */
  lemma FallbackIsLeast(i: Iface, family: Family, owned: set<Addr>)
    ensures
      var r := Fallback([Some(i)], family, owned);
      && (r.None? <==> !Eligible(i, family) || forall c :: !Usable(i, family, owned, c))
      && (r.Some? ==> Usable(i, family, owned, r.value) && forall c | Usable(i, family, owned, c) :: r.value.value <= c.value)
  {}

  /** The two host ends of an IPv4 /31 or /30, by the number of the lower one. */
  predicate PointToPoint(a: Iface, b: Iface) {
    && a.ip.family.V4? && b.ip.family.V4? && a.plen == b.plen && b.ip.value == a.ip.value + 1
    && ((a.plen == 31 && a.ip.value % 2 == 0) || (a.plen == 30 && a.ip.value % 4 == 1))
  }

  lemma SmallNetwork(i: Iface)
    requires i.ip.family.V4? && (i.plen == 30 || i.plen == 31)
    ensures i.plen == 31 ==> Network(i).Size() == 2 && Network(i).base == i.ip.value - i.ip.value % 2
    ensures i.plen == 30 ==> Network(i).Size() == 4 && Network(i).base == i.ip.value - i.ip.value % 4
  {
    assert Pow2(1) == 2 && Pow2(2) == 4;
  }

  /** The one usable address beside a host end of a small subnet. */
  lemma OneOtherHost(i: Iface, peer: Addr, d: Addr)
    requires i.ip.family.V4? && peer.family.V4?
    requires i.plen == 31 ==> peer.value == (if i.ip.value % 2 == 0 then i.ip.value + 1 else i.ip.value - 1)
    requires i.plen == 30 ==> i.ip.value % 4 in {1, 2} && peer.value == (if i.ip.value % 4 == 1 then i.ip.value + 1 else i.ip.value - 1)
    requires i.plen in {30, 31}
    ensures Usable(i, V4, {i.ip}, d) <==> d == peer
  {
    SmallNetwork(i);
  }

  lemma OtherEndIsOnlyChoice(a: Iface, b: Iface, d: Addr)
    requires PointToPoint(a, b)
    ensures Usable(a, V4, {a.ip}, d) <==> d == b.ip
    ensures Usable(b, V4, {b.ip}, d) <==> d == a.ip
  {
    OneOtherHost(a, b.ip, d);
    OneOtherHost(b, a.ip, d);
  }

  /** When just one address of the subnet is usable, the fallback finds it. */
  lemma OnlyChoice(i: Iface, c: Addr)
    requires Eligible(i, V4) && Usable(i, V4, {i.ip}, c) && forall d | Usable(i, V4, {i.ip}, d) :: d == c
    ensures Fallback([Some(i)], V4, OwnIps([Some(i)])) == Some(c)
  {
    assert OwnIps([Some(i)]) == {i.ip} by {
      assert [Some(i)][0] == Some(i);
    }
    FallbackIsLeast(i, V4, {i.ip});
  }

  /** Each end of a point-to-point link is offered the other one. */
  lemma EndsNameEachOther(a: Iface, b: Iface)
    requires PointToPoint(a, b)
    ensures Fallback([Some(a)], V4, OwnIps([Some(a)])) == Some(b.ip)
    ensures Fallback([Some(b)], V4, OwnIps([Some(b)])) == Some(a.ip)
  {
    forall d { OtherEndIsOnlyChoice(a, b, d); }
    OnlyChoice(a, b.ip);
    OnlyChoice(b, a.ip);
  }

  // ----- Tiers -----

  /** A line of an ARP or ND table; the texts `mac` and `state` are stripped and lower-case. */
  datatype Neighbor = Neighbor(ip: Option<Text>, iface: string, learnedVia: string, mac: string, state: string)

  datatype Tables = Tables(arp: seq<Neighbor>, nd: seq<Neighbor>, oldArp: seq<Neighbor>, oldNd: seq<Neighbor>) {
    function Current(f: Family): seq<Neighbor> {
      if f.V4? then arp else nd
    }

    function Old(f: Family): seq<Neighbor> {
      if f.V4? then oldArp else oldNd
    }
  }

  datatype Scope = Scope(id: string, serviceType: string, serviceSubtype: string,
                         interfaces: seq<string>, physical: seq<string>, instances: seq<string>, neighbors: seq<Text>,
                         local4: seq<Config>, local6: seq<Config>, gateway4: seq<Config>, gateway6: seq<Config>) {
    function Local(f: Family): seq<Config> {
      if f.V4? then local4 else local6
    }

    /** The scope's own addresses of one family, virtual gateways included. */
    function Own(f: Family): set<Addr> {
      OwnIps(Local(f) + if f.V4? then gateway4 else gateway6)
    }

    function Instance(): Option<string> {
      if serviceType == "IPVPN" && instances != [] then Some(instances[0]) else None
    }

    predicate Pinged() {
      serviceType in {"Internet", "IPVPN"} && serviceSubtype !in {"multicast", "mvpn"}
    }
  }

  datatype Origin = Bgp | Baseline | Table | SubnetFallback

  datatype Target = Target(scope: string, target: Text, instance: Option<string>, origin: Origin, family: Family, iface: Option<string>)

  predicate MatchesInterface(s: Scope, name: string) {
    name in s.interfaces || name in s.physical
  }

  /** Learned from behind a remote PE: a ping from here measures nothing. */
  predicate RemoteLearned(e: Neighbor) {
    ".local" <= e.learnedVia
  }

  predicate UsableNd(e: Neighbor) {
    e.mac != "" && e.mac != "none" && e.state !in {"unreachable", "incomplete"}
  }

  predicate IsOwn(t: Text, own: set<Addr>) {
    t.Host? && t.ip in own
  }

  predicate InNetworks(a: Addr, configs: seq<Config>) {
    exists i | 0 <= i < |configs| :: configs[i].Some? && Network(configs[i].value).Contains(a)
  }

  /** One address parsed, of this family and inside the scope's subnets. */
  predicate InScope(s: Scope, f: Family, e: Neighbor) {
    e.ip.Some? && e.ip.value.Host? && e.ip.value.ip.family == f && InNetworks(e.ip.value.ip, s.Local(f))
  }

  function BgpAddresses(s: Scope, f: Family): (r: seq<Text>)
    ensures forall t :: t in r <==> t in s.neighbors && t.Host? && t.ip.family == f && !LinkLocal(t.ip) && !IsOwn(t, s.Own(f))
  {
    var p := (t: Text) => t.Host? && t.ip.family == f && !LinkLocal(t.ip) && t.ip !in s.Own(f);
    FilterMembers(s.neighbors, p);
    Filter(s.neighbors, p)
  }

  function BaselineEntries(s: Scope, t: Tables, f: Family): (r: seq<Neighbor>)
    ensures forall e | e in r :: e in t.Old(f) && InScope(s, f, e) && !IsOwn(TextOf(e), s.Own(f))
  {
    var p := (e: Neighbor) => InScope(s, f, e) && !LinkLocalText(e.ip.value) && !RemoteLearned(e)
                              && (f.V6? ==> UsableNd(e)) && !IsOwn(e.ip.value, s.Own(f));
    FilterMembers(t.Old(f), p);
    Filter(t.Old(f), p)
  }

  predicate KeepsLinkLocal(s: Scope) {
    exists i | 0 <= i < |s.local6| :: s.local6[i].Some? && LinkLocal(s.local6[i].value.ip)
  }

  function TableEntries(s: Scope, t: Tables, f: Family): (r: seq<Neighbor>)
    ensures forall e | e in r :: e in t.Current(f) && e.ip.Some? && !IsOwn(TextOf(e), s.Own(f))
  {
    var p := (e: Neighbor) => MatchesInterface(s, e.iface) && e.ip.Some? && !RemoteLearned(e)
                              && (f.V6? ==> UsableNd(e) && (KeepsLinkLocal(s) || !LinkLocalText(e.ip.value)))
                              && !IsOwn(e.ip.value, s.Own(f));
    FilterMembers(t.Current(f), p);
    Filter(t.Current(f), p)
  }

  /** Evidence of hosts behind remote PEs, from the old box's table and from the own one. */
  function RemoteEvidence(s: Scope, t: Tables, f: Family): seq<Addr> {
    Map(Filter(t.Old(f), (e: Neighbor) => InScope(s, f, e) && RemoteLearned(e)), IpOf) +
    Map(Filter(t.Current(f), (e: Neighbor) => MatchesInterface(s, e.iface) && e.ip.Some? && e.ip.value.Host? && RemoteLearned(e)), IpOf)
  }

  function IpOf(e: Neighbor): Addr {
    if e.ip.Some? && e.ip.value.Host? then e.ip.value.ip else Addr(V4, 0)
  }

  function Parsed(entries: seq<Neighbor>): (r: seq<Addr>)
    ensures forall a | a in r :: exists e | e in entries :: TextOf(e) == Host(a)
  {
    var p := (e: Neighbor) => e.ip.Some? && e.ip.value.Host?;
    FilterMembers(entries, p);
    Map(Filter(entries, p), IpOf)
  }

  /** The per-subnet fallbacks, each with the subnet that asked for it.  A subnet asks when neither
      a target nor remote evidence (`taken`) nor an earlier fallback falls into it. */
  function Fallbacks(local: seq<Config>, f: Family, own: set<Addr>, taken: seq<Addr>): seq<(Net, Addr)> {
    if local == [] then []
    else
      var before, last := Fallbacks(local[..|local| - 1], f, own, taken), local[|local| - 1];
      if last.None? || Covered(Network(last.value), before, taken) then before
      else
        var r := FallbackIn(last, f, own);
        if r.Some? then before + [(Network(last.value), r.value)] else before
  }

  predicate Covered(net: Net, fallbacks: seq<(Net, Addr)>, taken: seq<Addr>) {
    InSubnet(net, taken) || (exists p | p in fallbacks :: net.Contains(p.1))
  }

  predicate InSubnet(net: Net, addresses: seq<Addr>) {
    exists a | a in addresses :: net.Contains(a)
  }

  function Taken(s: Scope, t: Tables, f: Family): seq<Addr> {
    Parsed(TableEntries(s, t, f)) + RemoteEvidence(s, t, f)
  }

  function FallbackTarget(s: Scope, f: Family): ((Net, Addr)) -> Target {
    (p: (Net, Addr)) => Target(s.id, Host(p.1), s.Instance(), Origin.SubnetFallback, f, None)
  }

  function FallbackTargets(s: Scope, f: Family, fallbacks: seq<(Net, Addr)>): seq<Target> {
    Map(fallbacks, FallbackTarget(s, f))
  }

  function TextOf(e: Neighbor): Text {
    if e.ip.Some? then e.ip.value else Junk("")
  }

  function TableTargets(s: Scope, t: Tables, f: Family): seq<Target> {
    Map(TableEntries(s, t, f), (e: Neighbor) =>
      Target(s.id, TextOf(e), s.Instance(), Table, f, if f.V6? && LinkLocalText(TextOf(e)) then Some(e.iface) else None))
  }

  /** The targets of one scope in one family: the first tier that yields anything wins. */
  function FamilyTargets(s: Scope, t: Tables, f: Family): seq<Target> {
    if BgpAddresses(s, f) != [] then
      Map(BgpAddresses(s, f), (x: Text) => Target(s.id, x, s.Instance(), Bgp, f, None))
    else if BaselineEntries(s, t, f) != [] then
      Map(BaselineEntries(s, t, f), (e: Neighbor) => Target(s.id, TextOf(e), s.Instance(), Baseline, f, None))
    else
      TableTargets(s, t, f) + FallbackTargets(s, f, Fallbacks(s.Local(f), f, s.Own(f), Taken(s, t, f)))
  }

  function ScopeTargets(s: Scope, t: Tables): seq<Target> {
    if s.Pinged() then FamilyTargets(s, t, V4) + FamilyTargets(s, t, V6) else []
  }

  function AllTargets(scopes: seq<Scope>, t: Tables): seq<Target> {
    if scopes == [] then [] else AllTargets(scopes[..|scopes| - 1], t) + ScopeTargets(scopes[|scopes| - 1], t)
  }

  method ResolveTargets(scopes: seq<Scope>, t: Tables) returns (targets: seq<Target>)
    ensures targets == AllTargets(scopes, t)
  {
    targets := [];
    for k := 0 to |scopes|
      invariant targets == AllTargets(scopes[..k], t)
    {
      var s := scopes[k];
      assert scopes[..k + 1][..k] == scopes[..k];
      if s.Pinged() {
        var four := ResolveFamily(s, t, V4);
        var six := ResolveFamily(s, t, V6);
        targets := targets + (four + six);
      }
    }
    assert scopes[..|scopes|] == scopes;
  }

  method ResolveFamily(s: Scope, t: Tables, f: Family) returns (targets: seq<Target>)
    ensures targets == FamilyTargets(s, t, f)
  {
    var bgp := BgpAddresses(s, f);
    if bgp != [] {
      return Map(bgp, (x: Text) => Target(s.id, x, s.Instance(), Bgp, f, None));
    }
    var baseline := BaselineEntries(s, t, f);
    if baseline != [] {
      return Map(baseline, (e: Neighbor) => Target(s.id, TextOf(e), s.Instance(), Baseline, f, None));
    }
    var fallbacks := AddFallbacks(s, f, Taken(s, t, f));
    targets := TableTargets(s, t, f) + fallbacks;
  }

  function Emitted(taken: seq<Addr>, fallbacks: seq<(Net, Addr)>): seq<Addr> {
    taken + Map(fallbacks, (p: (Net, Addr)) => p.1)
  }

  lemma FallbackSnoc(s: Scope, f: Family, taken: seq<Addr>, fallbacks: seq<(Net, Addr)>, p: (Net, Addr))
    ensures FallbackTargets(s, f, fallbacks + [p]) == FallbackTargets(s, f, fallbacks) + [FallbackTarget(s, f)(p)]
    ensures Emitted(taken, fallbacks + [p]) == Emitted(taken, fallbacks) + [p.1]
  {}

  /** The loop over the configured subnets; `emitted` grows with every fallback it adds. */
  method AddFallbacks(s: Scope, f: Family, taken: seq<Addr>) returns (added: seq<Target>)
    ensures added == FallbackTargets(s, f, Fallbacks(s.Local(f), f, s.Own(f), taken))
  {
    var local, emitted := s.Local(f), taken;
    added := [];
    ghost var fallbacks: seq<(Net, Addr)> := [];
    for k := 0 to |local|
      invariant fallbacks == Fallbacks(local[..k], f, s.Own(f), taken)
      invariant emitted == Emitted(taken, fallbacks)
      invariant added == FallbackTargets(s, f, fallbacks)
    {
      assert local[..k + 1][..k] == local[..k];
      if local[k].None? {
        continue;
      }
      var net := Network(local[k].value);
      CoveredByEmitted(net, fallbacks, taken);
      if InSubnet(net, emitted) {
        continue;
      }
      var r := SubnetFallback([local[k]], f, local + if f.V4? then s.gateway4 else s.gateway6);
      OnlyOneSubnet(local[k], f, s.Own(f));
      if r.Some? {
        FallbackSnoc(s, f, taken, fallbacks, (net, r.value));
        emitted := emitted + [r.value];
        added := added + [Target(s.id, Host(r.value), s.Instance(), Origin.SubnetFallback, f, None)];
        fallbacks := fallbacks + [(net, r.value)];
      }
    }
    assert local[..|local|] == local;
  }

  lemma OnlyOneSubnet(c: Config, f: Family, own: set<Addr>)
    ensures Fallback([c], f, own) == FallbackIn(c, f, own)
  {}

  lemma CoveredByEmitted(net: Net, fallbacks: seq<(Net, Addr)>, taken: seq<Addr>)
    ensures Covered(net, fallbacks, taken) <==> InSubnet(net, Emitted(taken, fallbacks))
  {}

  // ----- Main results -----

  function Tier(o: Origin): nat {
    match o case Bgp => 1 case Baseline => 2 case Table => 3 case SubnetFallback => 3
  }

  predicate LastTier(s: Scope, t: Tables, f: Family) {
    BgpAddresses(s, f) == [] && BaselineEntries(s, t, f) == []
  }

  /** A target the scope may have: of this scope and family, of this tier, not one of its own
      addresses. */
  predicate Proper(x: Target, s: Scope, f: Family, tier: nat) {
    x.scope == s.id && x.family == f && x.instance == s.Instance() && !IsOwn(x.target, s.Own(f)) && Tier(x.origin) == tier
  }

  lemma LastTierIsProper(s: Scope, t: Tables, f: Family)
    ensures forall x | x in TableTargets(s, t, f) :: Proper(x, s, f, 3)
    ensures forall x | x in FallbackTargets(s, f, Fallbacks(s.Local(f), f, s.Own(f), Taken(s, t, f))) :: Proper(x, s, f, 3)
  {
    FallbacksAreSound(s.Local(f), f, s.Own(f), Taken(s, t, f));
  }

  /** All targets of a scope in one family come from one tier, none is reached while a better one
      has an address, and no target is an address of the scope itself. */
  lemma OneTierNeverOwn(s: Scope, t: Tables, f: Family)
    ensures var tier := if BgpAddresses(s, f) != [] then 1 else if BaselineEntries(s, t, f) != [] then 2 else 3;
            forall x | x in FamilyTargets(s, t, f) :: Proper(x, s, f, tier)
  {
    if BgpAddresses(s, f) != [] {
    } else if BaselineEntries(s, t, f) == [] {
      LastTierIsProper(s, t, f);
    }
  }

  /** Every fallback lies in the subnet that asked for it, is usable there, and no subnet asks
      twice. */
  lemma {:induction false} FallbacksAreSound(local: seq<Config>, f: Family, own: set<Addr>, taken: seq<Addr>)
    ensures var r := Fallbacks(local, f, own, taken);
      && (forall p | p in r :: p.0.Contains(p.1) && p.1 !in own && exists i | 0 <= i < |local| ::
            local[i].Some? && p.0 == Network(local[i].value) && Usable(local[i].value, f, own, p.1))
      && (forall i, j | 0 <= i < j < |r| :: r[i].0 != r[j].0 && !r[j].0.Contains(r[i].1))
      && (forall p, a | p in r && a in taken :: !p.0.Contains(a))
  {
    if local != [] {
      var n := |local| - 1;
      var before := Fallbacks(local[..n], f, own, taken);
      FallbacksAreSound(local[..n], f, own, taken);
      assert forall i | 0 <= i < n :: local[..n][i] == local[i];
      var r := Fallbacks(local, f, own, taken);
      if r != before {
        assert r[..|before|] == before;
        assert forall i | 0 <= i < |before| :: before[i] in before;
        assert local[n].Some? && Usable(local[n].value, f, own, r[|before|].1);
      }
    }
  }

  /** The fallback loop leaves a configured subnet alone only for one of the listed reasons. */
  lemma {:induction false} FallbackLoopCovers(local: seq<Config>, f: Family, own: set<Addr>, taken: seq<Addr>, i: nat)
    requires i < |local| && local[i].Some?
    ensures Covered(Network(local[i].value), Fallbacks(local, f, own, taken), taken) || FallbackIn(local[i], f, own).None?
  {
    var n := |local| - 1;
    var before, r := Fallbacks(local[..n], f, own, taken), Fallbacks(local, f, own, taken);
    if i < n {
      FallbackLoopCovers(local[..n], f, own, taken, i);
      assert forall p | p in before :: p in r;
    } else if r != before {
      OwnNetwork(local[i].value);
      FallbackIsLeast(local[i].value, f, own);
      var p := (Network(local[i].value), FallbackIn(local[i], f, own).value);
      assert p in r && p.0.Contains(p.1);
    }
  }

  predicate HasTarget(net: Net, targets: seq<Target>) {
    exists x | x in targets :: x.target.Host? && net.Contains(x.target.ip)
  }

  /** In the last tier a configured subnet without a target has remote evidence in it, or is not
      eligible for a fallback, or has no free address. */
  lemma LastTierCovers(s: Scope, t: Tables, f: Family, i: nat)
    requires LastTier(s, t, f) && i < |s.Local(f)| && s.Local(f)[i].Some?
    ensures
      var c := s.Local(f)[i].value;
      || HasTarget(Network(c), FamilyTargets(s, t, f))
      || InSubnet(Network(c), RemoteEvidence(s, t, f))
      || !Eligible(c, f)
      || (forall a :: !Usable(c, f, s.Own(f), a))
  {
    var local, own, taken := s.Local(f), s.Own(f), Taken(s, t, f);
    var c := local[i].value;
    var net, fallbacks := Network(c), Fallbacks(local, f, own, taken);
    FallbackLoopCovers(local, f, own, taken, i);
    var targets := FamilyTargets(s, t, f);
    if p :| p in fallbacks && net.Contains(p.1) {
      var x := Target(s.id, Host(p.1), s.Instance(), Origin.SubnetFallback, f, None);
      assert x in FallbackTargets(s, f, fallbacks);
      assert x in targets && net.Contains(x.target.ip);
    } else if Covered(net, fallbacks, taken) {
      var a :| a in taken && net.Contains(a);
      if a in Parsed(TableEntries(s, t, f)) {
        TableAddressIsTarget(s, t, f, net, a);
      }
    }
  }

  lemma TableAddressIsTarget(s: Scope, t: Tables, f: Family, net: Net, a: Addr)
    requires a in Parsed(TableEntries(s, t, f)) && net.Contains(a)
    ensures HasTarget(net, TableTargets(s, t, f))
  {}

  // ----- The explanation in the report (checks/reachability.py) -----

  datatype Silent = Silent(net: Net, family: Family, threshold: nat)

  /** The subnets of one list that are too large for a fallback and got no target, each once. */
  function OversizedIn(prefixes: seq<Config>, f: Family, probes: seq<Target>, already: seq<Silent>): seq<Silent> {
    if prefixes == [] then already
    else
      var before, last := OversizedIn(prefixes[..|prefixes| - 1], f, probes, already), prefixes[|prefixes| - 1];
      if last.None? || last.value.plen >= MinPrefix(f) || HasTarget(Network(last.value), OfFamily(probes, f))
         || Listed(Network(last.value), before)
      then before
      else before + [Silent(Network(last.value), f, MinPrefix(f))]
  }

  function OfFamily(probes: seq<Target>, f: Family): (r: seq<Target>)
    ensures forall x :: x in r <==> x in probes && x.family == f
  {
    FilterMembers(probes, (x: Target) => x.family == f);
    Filter(probes, (x: Target) => x.family == f)
  }

  predicate Listed(net: Net, silent: seq<Silent>) {
    exists e | e in silent :: e.net == net
  }

  function Oversized(s: Scope, probes: seq<Target>): seq<Silent> {
    OversizedIn(s.local6, V6, probes, OversizedIn(s.local4, V4, probes, []))
  }

  method OversizedSubnetsWithoutTargets(s: Scope, probes: seq<Target>) returns (r: seq<Silent>)
    ensures r == Oversized(s, probes)
  {
    r := [];
    var seen: set<Net> := {};
    var families := [V4, V6];
    for n := 0 to 2
      invariant forall net :: net in seen <==> Listed(net, r)
      invariant r == if n == 0 then [] else if n == 1 then OversizedIn(s.local4, V4, probes, []) else Oversized(s, probes)
    {
      var f := families[n];
      var prefixes, targets := s.Local(f), OfFamily(probes, f);
      ghost var already := r;
      for k := 0 to |prefixes|
        invariant forall net :: net in seen <==> Listed(net, r)
        invariant r == OversizedIn(prefixes[..k], f, probes, already)
      {
        assert prefixes[..k + 1][..k] == prefixes[..k];
        if prefixes[k].None? {
          continue;
        }
        var net := Network(prefixes[k].value);
        if net.plen >= MinPrefix(f) || HasTarget(net, targets) || net in seen {
          continue;
        }
        seen := seen + {net};
        r := r + [Silent(net, f, MinPrefix(f))];
      }
      assert prefixes[..|prefixes|] == prefixes;
    }
  }

  ghost predicate OncePerSubnet(silent: seq<Silent>) {
    forall i, j | 0 <= i < j < |silent| :: silent[i].net != silent[j].net
  }

  lemma OncePerSubnetSnoc(silent: seq<Silent>, e: Silent)
    requires OncePerSubnet(silent) && !Listed(e.net, silent)
    ensures OncePerSubnet(silent + [e])
  {}

  lemma {:induction false} OversizedInIsDistinct(prefixes: seq<Config>, f: Family, probes: seq<Target>, already: seq<Silent>)
    requires OncePerSubnet(already)
    ensures OncePerSubnet(OversizedIn(prefixes, f, probes, already))
  {
    if prefixes != [] {
      var before, last := OversizedIn(prefixes[..|prefixes| - 1], f, probes, already), prefixes[|prefixes| - 1];
      OversizedInIsDistinct(prefixes[..|prefixes| - 1], f, probes, already);
      if last.Some? && !Listed(Network(last.value), before) {
        OncePerSubnetSnoc(before, Silent(Network(last.value), f, MinPrefix(f)));
      }
    }
  }

  lemma {:induction false} OversizedInLists(prefixes: seq<Config>, f: Family, probes: seq<Target>, already: seq<Silent>)
    ensures var r := OversizedIn(prefixes, f, probes, already);
      && (forall net :: Listed(net, already) ==> Listed(net, r))
      && (forall i | 0 <= i < |prefixes| && prefixes[i].Some? && prefixes[i].value.plen < MinPrefix(f) ::
            Listed(Network(prefixes[i].value), r) || HasTarget(Network(prefixes[i].value), OfFamily(probes, f)))
  {
    if prefixes != [] {
      var n := |prefixes| - 1;
      OversizedInLists(prefixes[..n], f, probes, already);
      var before, r := OversizedIn(prefixes[..n], f, probes, already), OversizedIn(prefixes, f, probes, already);
      assert forall e | e in before :: e in r;
      assert forall i | 0 <= i < n :: prefixes[..n][i] == prefixes[i];
      if r != before {
        assert r[|before|] in r;
      }
    }
  }

  lemma {:induction false} OversizedInIsSound(prefixes: seq<Config>, f: Family, probes: seq<Target>, already: seq<Silent>, e: Silent)
    requires e in OversizedIn(prefixes, f, probes, already) && e !in already
    ensures e.family == f && e.threshold == MinPrefix(f) && e.net.plen < e.threshold && !HasTarget(e.net, OfFamily(probes, f))
    ensures exists i | 0 <= i < |prefixes| :: prefixes[i].Some? && Network(prefixes[i].value) == e.net
  {
    var n := |prefixes| - 1;
    if e in OversizedIn(prefixes[..n], f, probes, already) {
      OversizedInIsSound(prefixes[..n], f, probes, already, e);
      var i :| 0 <= i < n && prefixes[..n][i].Some? && Network(prefixes[..n][i].value) == e.net;
      assert prefixes[i] == prefixes[..n][i];
    } else {
      assert prefixes[n].Some? && Network(prefixes[n].value) == e.net;
    }
  }

  /** The list names each subnet once, and names exactly the oversized subnets of the scope without
      a target of their own family. */
  lemma OversizedIsExact(s: Scope, probes: seq<Target>)
    ensures var r := Oversized(s, probes);
      && OncePerSubnet(r)
      && (forall f: Family, i | 0 <= i < |s.Local(f)| && s.Local(f)[i].Some? && s.Local(f)[i].value.plen < MinPrefix(f) ::
            Listed(Network(s.Local(f)[i].value), r) || HasTarget(Network(s.Local(f)[i].value), OfFamily(probes, f)))
      && (forall e | e in r :: e.threshold == MinPrefix(e.family) && e.net.plen < e.threshold && !HasTarget(e.net, OfFamily(probes, e.family))
            && exists i | 0 <= i < |s.Local(e.family)| :: s.Local(e.family)[i].Some? && Network(s.Local(e.family)[i].value) == e.net)
  {
    OversizedInIsDistinct(s.local4, V4, probes, []);
    OversizedInLists(s.local4, V4, probes, []);
    var four := OversizedIn(s.local4, V4, probes, []);
    OversizedInIsDistinct(s.local6, V6, probes, four);
    OversizedInLists(s.local6, V6, probes, four);
    forall e | e in Oversized(s, probes)
      ensures e.threshold == MinPrefix(e.family) && e.net.plen < e.threshold && !HasTarget(e.net, OfFamily(probes, e.family))
      ensures exists i | 0 <= i < |s.Local(e.family)| :: s.Local(e.family)[i].Some? && Network(s.Local(e.family)[i].value) == e.net
    {
      if e in four {
        OversizedInIsSound(s.local4, V4, probes, [], e);
        assert e.family == V4 && s.Local(e.family) == s.local4;
      } else {
        OversizedInIsSound(s.local6, V6, probes, four, e);
        assert e.family == V6 && s.Local(e.family) == s.local6;
      }
    }
  }

  /** Explained silence: when the probes are the resolved targets, every subnet that the last tier
      leaves without a target is listed as oversized, or has remote evidence in it, or is a single
      host, or has no free address. */
  lemma SilenceIsExplained(s: Scope, t: Tables, f: Family, i: nat)
    requires s.Pinged() && LastTier(s, t, f) && i < |s.Local(f)| && s.Local(f)[i].Some?
    requires !HasTarget(Network(s.Local(f)[i].value), FamilyTargets(s, t, f))
    ensures
      var c := s.Local(f)[i].value;
      || Listed(Network(c), Oversized(s, ScopeTargets(s, t)))
      || InSubnet(Network(c), RemoteEvidence(s, t, f))
      || c.plen == c.ip.family.Bits()
      || (forall a :: !Usable(c, f, s.Own(f), a))
  {
    LastTierCovers(s, t, f, i);
    OversizedIsExact(s, ScopeTargets(s, t));
    OneTierNeverOwn(s, t, V4);
    OneTierNeverOwn(s, t, V6);
    var four, six := FamilyTargets(s, t, V4), FamilyTargets(s, t, V6);
    assert forall x | x in OfFamily(four + six, f) :: x in FamilyTargets(s, t, f);
    assert !HasTarget(Network(s.Local(f)[i].value), OfFamily(ScopeTargets(s, t), f));
  }
}
