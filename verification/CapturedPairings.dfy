/** Which pairings a capture protects from an update of the mapping (api.py), told from the records. */
module CapturedPairings {
  import opened Wrappers
  import opened Seqs
  import opened Manifest

  /** The record is of this port, or of the whole box. */
  predicate Names(r: Record, e: Endpoint) {
    r.device == e.node && (r.port == None || r.port == Some(e.port))
  }

  /** The record is of either end of the pairing, or of the whole of either box. */
  predicate NamesAnEnd(r: Record, x: Mapping) {
    Names(r, x.from) || Names(r, x.to)
  }

  lemma LockedIs(cs: seq<Record>, x: Mapping)
    ensures Locked(cs, x) <==> exists r | r in cs :: NamesAnEnd(r, x)
  {
    forall r ensures Locks(r, x) <==> NamesAnEnd(r, x) {}
  }

  /** `node` is the one box with this role. */
  predicate OnlyBox(devices: seq<Device>, role: Role, node: string) {
    exists i | 0 <= i < |devices| :: OnlyAt(devices, role, node, i)
  }

  predicate OnlyAt(devices: seq<Device>, role: Role, node: string, i: int)
    requires 0 <= i < |devices|
  {
    devices[i].role == role && devices[i].node == node && forall j | 0 <= j < |devices| && j != i :: devices[j].role != role
  }

  lemma {:induction false} NoBoxes(devices: seq<Device>, role: Role)
    ensures NodesWith(devices, role) == [] <==> forall i | 0 <= i < |devices| :: devices[i].role != role
  {
    if devices != [] {
      NoBoxes(devices[..|devices| - 1], role);
    }
  }

  lemma {:induction false} OneBox(devices: seq<Device>, role: Role, node: string)
    ensures NodesWith(devices, role) == [node] <==> OnlyBox(devices, role, node)
  {
    if devices != [] {
      var before, last := devices[..|devices| - 1], devices[|devices| - 1];
      NoBoxes(before, role);
      OneBox(before, role, node);
      if last.role == role {
        OneMore(NodesWith(before, role), last.node, node);
        assert OnlyAt(devices, role, node, |before|) <==> last.node == node && NodesWith(before, role) == [];
      } else {
        OnlyBoxBefore(devices, role, node);
      }
    }
  }

  lemma OneMore(nodes: seq<string>, last: string, node: string)
    ensures nodes + [last] == [node] <==> nodes == [] && last == node
  {
    if nodes + [last] == [node] {
      assert |nodes + [last]| == 1 && (nodes + [last])[0] == node;
    }
  }

  lemma OnlyBoxBefore(devices: seq<Device>, role: Role, node: string)
    requires devices != [] && devices[|devices| - 1].role != role
    ensures OnlyBox(devices, role, node) <==> OnlyBox(devices[..|devices| - 1], role, node)
  {
    var before := devices[..|devices| - 1];
    forall i | 0 <= i < |before| ensures OnlyAt(devices, role, node, i) <==> OnlyAt(before, role, node, i) {
      assert forall j | 0 <= j < |before| :: devices[j] == before[j];
    }
  }

  /** A migration with one old box and one new box. */
  predicate HasBoxes(m: Manifest, o: string, n: string) {
    m.kind.Migration? && OnlyBox(m.devices, Old, o) && OnlyBox(m.devices, New, n)
  }

  lemma BoxesAre(m: Manifest, o: string, n: string)
    ensures HasBoxes(m, o, n) <==> m.kind.Migration? && NodesWith(m.devices, Old) == [o] && NodesWith(m.devices, New) == [n]
  {
    OneBox(m.devices, Old, o);
    OneBox(m.devices, New, n);
  }

  /** No old port is given two new ones. */
  ghost predicate Agree(pairs: seq<(string, string)>) {
    forall i, j | 0 <= i < |pairs| && 0 <= j < |pairs| && pairs[i].0 == pairs[j].0 :: pairs[i].1 == pairs[j].1
  }

  /** The ports of the pairing are not among the pairs. */
  predicate LeavesOut(pairs: seq<(string, string)>, x: Mapping) {
    forall i | 0 <= i < |pairs| :: !(pairs[i].0 == x.from.port && pairs[i].1 == x.to.port)
  }

  /** Main theorem on one update: it is refused exactly when the run lacks its two boxes, or the pairs
      contradict each other, or leave out a pairing that a record names. */
  lemma RefusedExactly(m: Manifest, pairs: seq<(string, string)>)
    ensures Updated(m, pairs).None? <==>
            || (forall o, n :: !HasBoxes(m, o, n))
            || !Agree(pairs)
            || exists x, r | x in m.mappings && r in m.captures :: NamesAnEnd(r, x) && LeavesOut(pairs, x)
  {
    if m.kind.Migration? && |NodesWith(m.devices, Old)| == |NodesWith(m.devices, New)| == 1 {
      var o, n := NodesWith(m.devices, Old)[0], NodesWith(m.devices, New)[0];
      BoxesAre(m, o, n);
      UpdateAndLocks(m, pairs);
      assert Consistent(pairs) <==> Agree(pairs);
      forall x { LockedIs(m.captures, x); }
      forall x ensures Ports(x) in pairs <==> !LeavesOut(pairs, x) {}
    } else {
      forall o, n ensures !HasBoxes(m, o, n) {
        BoxesAre(m, o, n);
      }
    }
  }

  /** An accepted update leaves exactly the wanted pairings of the two boxes, each old port once. */
  lemma AcceptedUpdate(m: Manifest, pairs: seq<(string, string)>, o: string, n: string)
    requires HasBoxes(m, o, n) && Updated(m, pairs).Some?
    ensures
      var r := Updated(m, pairs).value;
      && r == m.(mappings := r.mappings)
      && (forall i | 0 <= i < |pairs| :: exists x | x in r.mappings :: x == Mapping(Endpoint(o, pairs[i].0, None), Endpoint(n, pairs[i].1, None)))
      && (forall x | x in r.mappings :: exists p | p in pairs :: x == Mapping(Endpoint(o, p.0, None), Endpoint(n, p.1, None)))
      && (forall i, j | 0 <= i < j < |r.mappings| :: r.mappings[i].from.port != r.mappings[j].from.port)
  {
    BoxesAre(m, o, n);
    UpdateAndLocks(m, pairs);
    var r := Updated(m, pairs).value;
    forall x | x in r.mappings ensures exists p | p in pairs :: x == Mapping(Endpoint(o, p.0, None), Endpoint(n, p.1, None)) {
      assert Ports(x) in pairs;
    }
    forall i | 0 <= i < |pairs| ensures exists x | x in r.mappings :: x == Mapping(Endpoint(o, pairs[i].0, None), Endpoint(n, pairs[i].1, None)) {
      assert pairs[i] in pairs;
      var x :| x in r.mappings && Ends(x) == ((o, pairs[i].0), (n, pairs[i].1));
      assert x == Mapping(Endpoint(o, pairs[i].0, None), Endpoint(n, pairs[i].1, None));
    }
  }

  // ----- Over runs -----

  /** The boxes of a run after this capture are at most one old and one new one, or for a run of a
      single box just that. */
  predicate Accepted(m: Manifest, e: Event)
    requires e.Capture?
  {
    KindFits(m.kind, WithBox(m.devices, Device(e.record.device, e.host, e.platform, e.role)))
  }

  /** Which boxes a run may have: a single one of that role, or none of that role and no second old or
      new one. */
  lemma KindFitsExactly(kind: Kind, devices: seq<Device>)
    ensures KindFits(kind, devices) <==>
            if kind.SingleRun? then |devices| == 1 && devices[0].role == Single
            else
              && (forall i | 0 <= i < |devices| :: devices[i].role != Single)
              && (forall i, j | 0 <= i < j < |devices| && devices[i].role == devices[j].role :: devices[i].role == L2Switch)
  {
    NoBoxes(devices, Single);
    AtMostOneBox(devices, Old);
    AtMostOneBox(devices, New);
  }

  lemma {:induction false} AtMostOneBox(devices: seq<Device>, role: Role)
    ensures |NodesWith(devices, role)| <= 1 <==> forall i, j | 0 <= i < j < |devices| && devices[i].role == role :: devices[j].role != role
  {
    if devices != [] {
      var before, last := devices[..|devices| - 1], devices[|devices| - 1];
      AtMostOneBox(before, role);
      NoBoxes(before, role);
      assert forall i | 0 <= i < |before| :: devices[i] == before[i];
    }
  }

  /** Both mappings pair the same ports of the same boxes. */
  predicate SamePairing(x: Mapping, y: Mapping) {
    && x.from.node == y.from.node && x.from.port == y.from.port
    && x.to.node == y.to.node && x.to.port == y.to.port
  }

  lemma {:induction false} PutHas(cs: seq<Record>, r: Record)
    ensures r in Put(cs, r)
  {
    if cs != [] && KeyOf(cs[0]) != KeyOf(r) {
      PutHas(cs[1..], r);
    }
  }

  lemma CaptureLocks(m: Manifest, e: Event, x: Mapping)
    requires e.Capture? && Accepted(m, e) && x in m.mappings && NamesAnEnd(e.record, x)
    ensures LockedIn(Apply(m, e), Ends(x))
  {
    PutHas(m.captures, e.record);
    var r := e.record.(port := ReloadedPort(e.record.port));
    assert r in Apply(m, e).captures;
    LockedIs([r], x);
    assert [r][0] == r && NamesAnEnd(r, x);
    assert Locks(r, x);
  }

  lemma ExecSnoc(m: Manifest, events: seq<Event>, e: Event)
    ensures Exec(m, events + [e]) == Apply(Exec(m, events), e)
  {
    assert (events + [e])[..|events|] == events;
  }

  /** Main theorem on runs: once either end of a pairing of the two boxes, or the whole of either box, is
      captured, the pairing is there in every later state. */
  lemma CapturedPairingStays(m: Manifest, pairs: seq<(string, string)>, before: seq<Event>, e: Event, after: seq<Event>, x: Mapping)
    requires Created(m, pairs) && OnlyBox(m.devices, Old, x.from.node) && OnlyBox(m.devices, New, x.to.node)
    requires x in Exec(m, before).mappings
    requires e.Capture? && Accepted(Exec(m, before), e) && NamesAnEnd(e.record, x)
    ensures exists y | y in Exec(m, before + [e] + after).mappings :: SamePairing(x, y)
  {
    BoxesAre(m, x.from.node, x.to.node);
    ExecSnoc(m, before, e);
    CaptureLocks(Exec(m, before), e, x);
    LockedPairingStays(m, pairs, before + [e], after, Ends(x));
    var y :| y in Exec(m, before + [e] + after).mappings && Ends(y) == Ends(x);
    assert SamePairing(x, y);
  }

  /** Which captures are accepted: those of a known box, and of one more box while its role is free. */
  lemma AcceptedExactly(m: Manifest, e: Event)
    requires e.Capture? && KindFits(m.kind, m.devices) && m.kind.Migration?
    ensures Accepted(m, e) <==>
            || (exists d | d in m.devices :: d.node == e.record.device)
            || (!e.role.Single? && ((e.role.Old? || e.role.New?) ==> forall d | d in m.devices :: d.role != e.role))
  {
    var d := Device(e.record.device, e.host, e.platform, e.role);
    var all := m.devices + [d];
    assert all[..|m.devices|] == m.devices;
    NoBoxes(m.devices, e.role);
    assert forall i | 0 <= i < |m.devices| :: m.devices[i] in m.devices;
  }

  /** The old end has the same node and port. */
  predicate SameOld(x: Mapping, from: Endpoint) {
    x.from.node == from.node && x.from.port == from.port
  }

  /** What adding a pairing does to the list: nothing when it is there, a refusal when its old end is paired
      otherwise, and else it goes last as it was given. */
  lemma AddedExactly(ms: seq<Mapping>, from: Endpoint, to: Endpoint)
    requires Functional(ms)
    ensures
      if exists x | x in ms :: SameOld(x, from) && !(x.to.node == to.node && x.to.port == to.port) then Added(ms, from, to) == None
      else if exists x | x in ms :: SameOld(x, from) then Added(ms, from, to) == Some(ms)
      else Added(ms, from, to) == Some(ms + [Mapping(from, to)])
  {
    FirstFromFinds(ms, PlaceOf(from));
    OneFrom(ms, PlaceOf(from));
  }

  /** A record is found again by its phase, box and port, and recording it hides no other. */
  lemma RecordedIsFound(cs: seq<Record>, r: Record, phase: string, device: string, port: Option<string>)
    ensures Find(Put(cs, r), (phase, device, port)) ==
            if phase == r.phase && device == r.device && port == r.port then Some(r) else Find(cs, (phase, device, port))
  {
    CapturesAreAMap(cs, r, (phase, device, port));
  }

  /** An accepted capture keeps the boxes, adds its own with what was told about it when it was unknown, and
      its record is there, a port named "all" as the whole box. */
  lemma AcceptedCapture(m: Manifest, e: Event)
    requires e.Capture? && Accepted(m, e)
    ensures
      var after, d := Apply(m, e), Device(e.record.device, e.host, e.platform, e.role);
      && after.devices == m.devices + (if exists k | k in m.devices :: k.node == e.record.device then [] else [d])
      && after == m.(devices := after.devices, captures := after.captures)
      && e.record.(port := if e.record.port == Some("all") then None else e.record.port) in after.captures
  {
    PutHas(m.captures, e.record);
  }
}
