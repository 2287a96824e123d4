/** The manifest of a migration run: runs/manifest.py, with the mapping update and its lock from
api.py and the capture entry from runs/orchestrate.py. */
module Manifest {
  import opened Wrappers
  import opened Seqs

  /** A YAML document; mappings keep the order of their keys. */
  datatype Tree = Null | Text(text: string) | Number(n: int) | Items(items: seq<Tree>) | Fields(fields: seq<(string, Tree)>)

  datatype Role = Old | New | L2Switch | Single

  datatype Kind = SingleRun | Migration

  datatype Device = Device(node: string, host: string, platform: string, role: Role)

  datatype Endpoint = Endpoint(node: string, port: string, l2: Option<seq<(string, Tree)>>)

  /** (node, port). */
  type Place = (string, string)

  function PlaceOf(e: Endpoint): Place {
    (e.node, e.port)
  }

  datatype Mapping = Mapping(from: Endpoint, to: Endpoint)

  function Ends(m: Mapping): (Place, Place) {
    (PlaceOf(m.from), PlaceOf(m.to))
  }

  /** A capture; port None stands for the whole box. */
  datatype Record = Record(phase: string, device: string, port: Option<string>, snapshot: string, taken: string)

  type CaptureKey = (string, string, Option<string>)

  function KeyOf(r: Record): CaptureKey {
    (r.phase, r.device, r.port)
  }

  datatype Manifest = Manifest(devices: seq<Device>, mappings: seq<Mapping>, captures: seq<Record>, kind: Kind,
                               profile: Option<string>, group: Option<string>, createdBy: Option<string>)

  // ----- Specification of the single operations -----

  function FirstFrom(ms: seq<Mapping>, place: Place): Option<Mapping> {
    if ms == [] then None else if PlaceOf(ms[0].from) == place then Some(ms[0]) else FirstFrom(ms[1..], place)
  }

  /** None when the old endpoint already has another new one. */
  function Added(ms: seq<Mapping>, from: Endpoint, to: Endpoint): Option<seq<Mapping>> {
    var known := FirstFrom(ms, PlaceOf(from));
    if known.None? then Some(ms + [Mapping(from, to)])
    else if PlaceOf(known.value.to) == PlaceOf(to) then Some(ms)
    else None
  }

  function Put(cs: seq<Record>, r: Record): seq<Record> {
    if cs == [] then [r] else if KeyOf(cs[0]) == KeyOf(r) then [r] + cs[1..] else [cs[0]] + Put(cs[1..], r)
  }

  function Find(cs: seq<Record>, key: CaptureKey): Option<Record> {
    if cs == [] then None else if KeyOf(cs[0]) == key then Some(cs[0]) else Find(cs[1..], key)
  }

  function Partners(ms: seq<Mapping>, place: Place): seq<Mapping> {
    Filter(ms, (m: Mapping) => PlaceOf(m.from) == place)
  }

  function PairedNew(ms: seq<Mapping>, place: Place): Option<Endpoint> {
    var partners := Partners(ms, place);
    if |partners| == 1 then Some(partners[0].to) else None
  }

  function NodesWith(devices: seq<Device>, role: Role): seq<string> {
    if devices == [] then []
    else NodesWith(devices[..|devices| - 1], role) + if devices[|devices| - 1].role == role then [devices[|devices| - 1].node] else []
  }

  predicate KindFits(kind: Kind, devices: seq<Device>) {
    if kind.SingleRun? then |devices| == 1 && devices[0].role == Single
    else NodesWith(devices, Single) == [] && |NodesWith(devices, Old)| <= 1 && |NodesWith(devices, New)| <= 1
  }

  /** A capture at either end locks a pairing, a whole-box capture all pairings of its box. */
  predicate Locks(r: Record, m: Mapping) {
    || (r.port.Some? && (r.device, r.port.value) in {PlaceOf(m.from), PlaceOf(m.to)})
    || (r.port.None? && r.device in {m.from.node, m.to.node})
  }

  predicate Locked(cs: seq<Record>, m: Mapping) {
    exists r | r in cs :: Locks(r, m)
  }

  /** The first record of the key gives way, or the new one goes last. */
  lemma {:induction false} PutReplaces(cs: seq<Record>, r: Record, i: nat)
    requires i <= |cs| && forall k | 0 <= k < i :: KeyOf(cs[k]) != KeyOf(r)
    requires i < |cs| ==> KeyOf(cs[i]) == KeyOf(r)
    ensures Put(cs, r) == if i < |cs| then cs[i := r] else cs + [r]
  {
    if cs != [] && i > 0 {
      PutReplaces(cs[1..], r, i - 1);
    }
  }

  class RunManifest {
    var devices: seq<Device>
    var mappings: seq<Mapping>
    var captures: seq<Record>
    const kind: Kind
    const profile: Option<string>
    const group: Option<string>
    const createdBy: Option<string>

    function Value(): Manifest
      reads this
    {
      Manifest(devices, mappings, captures, kind, profile, group, createdBy)
    }

    constructor (m: Manifest)
      ensures Value() == m
    {
      devices, mappings, captures, kind := m.devices, m.mappings, m.captures, m.kind;
      profile, group, createdBy := m.profile, m.group, m.createdBy;
    }

    method AddMapping(from: Endpoint, to: Endpoint) returns (ok: bool)
      modifies this
      ensures ok <==> Added(old(mappings), from, to).Some?
      ensures Value() == old(Value()).(mappings := if ok then Added(old(mappings), from, to).value else old(mappings))
    {
      for i := 0 to |mappings|
        invariant Value() == old(Value())
        invariant FirstFrom(mappings, PlaceOf(from)) == FirstFrom(mappings[i..], PlaceOf(from))
      {
        var m := mappings[i];
        if PlaceOf(m.from) == PlaceOf(from) {
          return PlaceOf(m.to) == PlaceOf(to);
        }
      }
      mappings := mappings + [Mapping(from, to)];
      ok := true;
    }

    method RecordCapture(r: Record)
      modifies this
      ensures Value() == old(Value()).(captures := Put(old(captures), r))
    {
      for i := 0 to |captures|
        invariant Value() == old(Value())
        invariant forall k | 0 <= k < i :: KeyOf(captures[k]) != KeyOf(r)
      {
        if KeyOf(captures[i]) == KeyOf(r) {
          PutReplaces(captures, r, i);
          captures := captures[i := r];
          return;
        }
      }
      PutReplaces(captures, r, |captures|);
      captures := captures + [r];
    }

    method FindCapture(phase: string, device: string, port: Option<string>) returns (r: Option<Record>)
      ensures r == Find(captures, (phase, device, port))
    {
      for i := 0 to |captures|
        invariant Find(captures, (phase, device, port)) == Find(captures[i..], (phase, device, port))
      {
        if KeyOf(captures[i]) == (phase, device, port) {
          return Some(captures[i]);
        }
      }
      r := None;
    }
  }

  // ----- Updating the whole mapping -----

  /** The mapping that `update_mapping` builds, None when the pairs contradict each other. */
  function Rebuilt(oldNode: string, newNode: string, pairs: seq<(string, string)>): Option<seq<Mapping>> {
    if pairs == [] then Some([])
    else
      var before, last := Rebuilt(oldNode, newNode, pairs[..|pairs| - 1]), pairs[|pairs| - 1];
      if before.None? then None
      else Added(before.value, Endpoint(oldNode, last.0, None), Endpoint(newNode, last.1, None))
  }

  function Ports(m: Mapping): (string, string) {
    (m.from.port, m.to.port)
  }

  /** None for every refusal. */
  function Updated(m: Manifest, pairs: seq<(string, string)>): Option<Manifest> {
    var olds, news := NodesWith(m.devices, Old), NodesWith(m.devices, New);
    if m.kind.SingleRun? || |olds| != 1 || |news| != 1 then None
    else if exists x | x in m.mappings :: Locked(m.captures, x) && Ports(x) !in pairs then None
    else
      var rebuilt := Rebuilt(olds[0], news[0], pairs);
      if rebuilt.Some? then Some(m.(mappings := rebuilt.value)) else None
  }

  method UpdateMapping(m: Manifest, pairs: seq<(string, string)>) returns (r: Option<Manifest>)
    ensures r == Updated(m, pairs)
  {
    var olds, news := NodesWith(m.devices, Old), NodesWith(m.devices, New);
    if m.kind.SingleRun? || |olds| != 1 || |news| != 1 {
      return None;
    }
    for i := 0 to |m.mappings|
      invariant forall k | 0 <= k < i :: !(Locked(m.captures, m.mappings[k]) && Ports(m.mappings[k]) !in pairs)
    {
      if Locked(m.captures, m.mappings[i]) && Ports(m.mappings[i]) !in pairs {
        assert m.mappings[i] in m.mappings;
        return None;
      }
    }
    var rebuilt := new RunManifest(m.(mappings := []));
    for i := 0 to |pairs|
      invariant Some(rebuilt.mappings) == Rebuilt(olds[0], news[0], pairs[..i])
      invariant rebuilt.Value() == m.(mappings := rebuilt.mappings)
    {
      assert pairs[..i + 1][..i] == pairs[..i];
      var ok := rebuilt.AddMapping(Endpoint(olds[0], pairs[i].0, None), Endpoint(news[0], pairs[i].1, None));
      if !ok {
        RebuiltPrefix(olds[0], news[0], pairs, i + 1);
        return None;
      }
    }
    assert pairs[..|pairs|] == pairs;
    r := Some(rebuilt.Value());
  }

  lemma {:induction false} RebuiltPrefix(o: string, n: string, pairs: seq<(string, string)>, k: nat)
    requires k <= |pairs| && Rebuilt(o, n, pairs[..k]).None?
    ensures Rebuilt(o, n, pairs).None?
  {
    if k < |pairs| {
      assert pairs[..|pairs| - 1][..k] == pairs[..k];
      RebuiltPrefix(o, n, pairs[..|pairs| - 1], k);
    } else {
      assert pairs[..k] == pairs;
    }
  }

  // ----- What one mapping operation means -----

  predicate Has(ms: seq<Mapping>, ends: (Place, Place)) {
    exists m | m in ms :: Ends(m) == ends
  }

  /** Each old endpoint maps to at most one new one, and is listed once. */
  ghost predicate Functional(ms: seq<Mapping>) {
    forall i, j | 0 <= i < j < |ms| :: PlaceOf(ms[i].from) != PlaceOf(ms[j].from)
  }

  lemma {:induction false} FirstFromFinds(ms: seq<Mapping>, place: Place)
    ensures var r := FirstFrom(ms, place);
            if r.Some? then r.value in ms && PlaceOf(r.value.from) == place
            else forall m | m in ms :: PlaceOf(m.from) != place
  {
    if ms != [] {
      FirstFromFinds(ms[1..], place);
      assert ms == [ms[0]] + ms[1..];
    }
  }

  /** Adding keeps everything, adds the wanted pairing, and fails exactly when the old endpoint is
      already paired with another new one. */
  lemma AddedIsInsertion(ms: seq<Mapping>, from: Endpoint, to: Endpoint)
    requires Functional(ms)
    ensures Added(ms, from, to).None? <==> exists m | m in ms :: PlaceOf(m.from) == PlaceOf(from) && PlaceOf(m.to) != PlaceOf(to)
    ensures Added(ms, from, to).Some? ==>
              var r := Added(ms, from, to).value;
              Functional(r) && forall ends :: Has(r, ends) <==> Has(ms, ends) || ends == (PlaceOf(from), PlaceOf(to))
  {
    FirstFromFinds(ms, PlaceOf(from));
    OneFrom(ms, PlaceOf(from));
    var known := FirstFrom(ms, PlaceOf(from));
    if known.None? {
      var r := ms + [Mapping(from, to)];
      assert r[|ms|] == Mapping(from, to) && forall i | 0 <= i < |ms| :: r[i] == ms[i] && ms[i] in ms;
      forall ends ensures Has(r, ends) <==> Has(ms, ends) || ends == (PlaceOf(from), PlaceOf(to)) {
        assert forall m :: m in r <==> m in ms || m == Mapping(from, to);
        assert Ends(Mapping(from, to)) == (PlaceOf(from), PlaceOf(to));
      }
    } else if PlaceOf(known.value.to) == PlaceOf(to) {
      assert Ends(known.value) == (PlaceOf(from), PlaceOf(to));
    }
  }

  lemma OneFrom(ms: seq<Mapping>, place: Place)
    requires Functional(ms)
    ensures forall a, b | a in ms && b in ms && PlaceOf(a.from) == place && PlaceOf(b.from) == place :: a == b
  {}

  /** In a functional mapping the partner of an old endpoint is found exactly when it has one. */
  lemma PairedNewFindsThePartner(ms: seq<Mapping>, from: Place, to: Place)
    requires Functional(ms)
    ensures Has(ms, (from, to)) <==> PairedNew(ms, from).Some? && PlaceOf(PairedNew(ms, from).value) == to
  {
    var partners := Partners(ms, from);
    FilterMembers(ms, (m: Mapping) => PlaceOf(m.from) == from);
    AtMostOnePartner(ms, from);
    if partners == [] {
      forall m | m in ms ensures Ends(m) != (from, to) {
        assert m !in partners;
      }
    } else {
      assert partners[0] in partners;
      OneFrom(ms, from);
    }
  }

  lemma {:induction false} AtMostOnePartner(ms: seq<Mapping>, from: Place)
    requires Functional(ms)
    ensures |Partners(ms, from)| <= 1
  {
    if ms != [] {
      var rest, last := ms[..|ms| - 1], ms[|ms| - 1];
      AtMostOnePartner(rest, from);
      if PlaceOf(last.from) == from {
        assert forall i | 0 <= i < |rest| :: PlaceOf(ms[i].from) != PlaceOf(ms[|ms| - 1].from);
        FilterNone(rest, (m: Mapping) => PlaceOf(m.from) == from);
      }
    }
  }

  /** Capture records behave as a map from (phase, device, port). */
  lemma {:induction false} CapturesAreAMap(cs: seq<Record>, r: Record, key: CaptureKey)
    ensures Find(Put(cs, r), key) == if key == KeyOf(r) then Some(r) else Find(cs, key)
  {
    if cs != [] && KeyOf(cs[0]) != KeyOf(r) {
      CapturesAreAMap(cs[1..], r, key);
    }
  }

  ghost predicate Unique(cs: seq<Record>) {
    forall i, j | 0 <= i < j < |cs| :: KeyOf(cs[i]) != KeyOf(cs[j])
  }

  lemma {:induction false} PutKeepsKeys(cs: seq<Record>, r: Record)
    ensures |cs| <= |Put(cs, r)| <= |cs| + 1
    ensures forall i | 0 <= i < |cs| :: KeyOf(Put(cs, r)[i]) == KeyOf(cs[i])
    ensures |Put(cs, r)| > |cs| ==> Put(cs, r)[|cs|] == r && forall i | 0 <= i < |cs| :: KeyOf(cs[i]) != KeyOf(r)
    ensures forall x | x in Put(cs, r) :: x == r || x in cs
  {
    if cs != [] && KeyOf(cs[0]) != KeyOf(r) {
      PutKeepsKeys(cs[1..], r);
      assert cs == [cs[0]] + cs[1..];
    }
  }

  lemma PutKeepsUnique(cs: seq<Record>, r: Record)
    requires Unique(cs)
    ensures Unique(Put(cs, r))
  {
    PutKeepsKeys(cs, r);
  }

  /** Pairs that give no old port two new ones. */
  ghost predicate Consistent(pairs: seq<(string, string)>) {
    forall p, q | p in pairs && q in pairs && p.0 == q.0 :: p.1 == q.1
  }

  ghost predicate Holds(o: string, n: string, pairs: seq<(string, string)>, ms: seq<Mapping>) {
    && Functional(ms)
    && (forall m | m in ms :: m.from.node == o && m.to.node == n && m.from.l2 == m.to.l2 == None && Ports(m) in pairs)
    && (forall p | p in pairs :: Has(ms, ((o, p.0), (n, p.1))))
  }

  lemma PairFits(o: string, n: string, pairs: seq<(string, string)>, ms: seq<Mapping>, p: (string, string))
    requires Holds(o, n, pairs, ms) && Consistent(pairs)
    ensures Consistent(pairs + [p]) <==> !exists m | m in ms :: PlaceOf(m.from) == (o, p.0) && PlaceOf(m.to) != (n, p.1)
  {}

  lemma PairAdded(o: string, n: string, pairs: seq<(string, string)>, ms: seq<Mapping>, p: (string, string))
    requires Holds(o, n, pairs, ms) && Added(ms, Endpoint(o, p.0, None), Endpoint(n, p.1, None)).Some?
    ensures Holds(o, n, pairs + [p], Added(ms, Endpoint(o, p.0, None), Endpoint(n, p.1, None)).value)
  {
    var from, to := Endpoint(o, p.0, None), Endpoint(n, p.1, None);
    AddedIsInsertion(ms, from, to);
    var r := Added(ms, from, to).value;
    forall m | m in r ensures m.from.node == o && m.to.node == n && m.from.l2 == m.to.l2 == None && Ports(m) in pairs + [p] {
      if m in ms {
        assert Ports(m) in pairs;
      } else {
        assert m == Mapping(from, to) && Ports(m) == p;
      }
    }
    forall q | q in pairs + [p] ensures Has(r, ((o, q.0), (n, q.1))) {
      if q in pairs {
        assert Has(ms, ((o, q.0), (n, q.1)));
      }
    }
  }

  lemma RebuiltStep(o: string, n: string, pairs: seq<(string, string)>, ms: seq<Mapping>, p: (string, string))
    requires Holds(o, n, pairs, ms) && Consistent(pairs)
    ensures var r := Added(ms, Endpoint(o, p.0, None), Endpoint(n, p.1, None));
            (r.Some? <==> Consistent(pairs + [p])) && (r.Some? ==> Holds(o, n, pairs + [p], r.value))
  {
    PairFits(o, n, pairs, ms, p);
    AddedIsInsertion(ms, Endpoint(o, p.0, None), Endpoint(n, p.1, None));
    if Added(ms, Endpoint(o, p.0, None), Endpoint(n, p.1, None)).Some? {
      PairAdded(o, n, pairs, ms, p);
    }
  }

  /** An update succeeds in building a mapping exactly when its pairs are consistent, and then
      builds exactly these pairs between the old box and the new box. */
  lemma {:induction false} RebuiltHolds(o: string, n: string, pairs: seq<(string, string)>)
    ensures Rebuilt(o, n, pairs).Some? <==> Consistent(pairs)
    ensures Rebuilt(o, n, pairs).Some? ==> Holds(o, n, pairs, Rebuilt(o, n, pairs).value)
  {
    if pairs != [] {
      var before, p := pairs[..|pairs| - 1], pairs[|pairs| - 1];
      RebuiltHolds(o, n, before);
      assert pairs == before + [p];
      if Consistent(before) {
        RebuiltStep(o, n, before, Rebuilt(o, n, before).value, p);
      }
    }
  }

  /** When an update goes through, and what a locked pairing becomes: it is still there exactly when
      it lies between the old box and the new box.  Ports alone are compared, so a locked pairing
      of any other node is replaced by one that merely shares its ports. */
  lemma UpdateAndLocks(m: Manifest, pairs: seq<(string, string)>)
    requires m.kind.Migration? && |NodesWith(m.devices, Old)| == |NodesWith(m.devices, New)| == 1
    ensures Updated(m, pairs).Some? <==>
            Consistent(pairs) && forall x | x in m.mappings && Locked(m.captures, x) :: Ports(x) in pairs
    ensures Updated(m, pairs).Some? ==>
              var o, n, r := NodesWith(m.devices, Old)[0], NodesWith(m.devices, New)[0], Updated(m, pairs).value;
              && Holds(o, n, pairs, r.mappings)
              && forall x | x in m.mappings && Locked(m.captures, x) ::
                   Has(r.mappings, Ends(x)) <==> x.from.node == o && x.to.node == n
  {
    var o, n := NodesWith(m.devices, Old)[0], NodesWith(m.devices, New)[0];
    RebuiltHolds(o, n, pairs);
    if Updated(m, pairs).Some? {
      var r := Updated(m, pairs).value;
      forall x | x in m.mappings && Locked(m.captures, x)
        ensures Has(r.mappings, Ends(x)) <==> x.from.node == o && x.to.node == n
      {
        assert Ports(x) in pairs;
      }
    }
  }

  // ----- Whole runs -----

  /** `capture` records a snapshot and adds its box when unknown, `pair` is add_mapping, `update` is
      update_mapping; each starts from the saved file and saves the result. */
  datatype Event =
    | Capture(record: Record, role: Role, host: string, platform: string)
    | Pair(from: Endpoint, to: Endpoint)
    | Update(pairs: seq<(string, string)>)

  predicate Knows(devices: seq<Device>, node: string) {
    exists d | d in devices :: d.node == node
  }

  /** The boxes of a run after a capture of this one. */
  function WithBox(devices: seq<Device>, d: Device): seq<Device> {
    if Knows(devices, d.node) then devices else devices + [d]
  }

  /** What loading makes of a saved port: the text "all" is the whole box. */
  function ReloadedPort(port: Option<string>): Option<string> {
    if port == Some("all") then None else port
  }

  function ReloadedCaptures(cs: seq<Record>): seq<Record> {
    Map(cs, (r: Record) => r.(port := ReloadedPort(r.port)))
  }

  /** Saved and loaded again. */
  function Reloaded(m: Manifest): Manifest {
    m.(captures := ReloadedCaptures(m.captures))
  }

  /** The saved manifest after an event.  A refused event saves nothing. */
  function Apply(m: Manifest, e: Event): Manifest {
    match e
    case Capture(r, role, host, platform) =>
      var devices := WithBox(m.devices, Device(r.device, host, platform, role));
      if KindFits(m.kind, devices) then Reloaded(m.(devices := devices, captures := Put(m.captures, r))) else m
    case Pair(from, to) =>
      var added := Added(m.mappings, from, to);
      if added.Some? then Reloaded(m.(mappings := added.value)) else m
    case Update(pairs) =>
      var r := Updated(m, pairs);
      if r.Some? then Reloaded(r.value) else m
  }

  function Exec(m: Manifest, events: seq<Event>): Manifest {
    if events == [] then m else Apply(Exec(m, events[..|events| - 1]), events[|events| - 1])
  }

  /** A run as `create_run` makes it: one old box and one new box, pairs between them. */
  ghost predicate Created(m: Manifest, pairs: seq<(string, string)>) {
    && m.kind.Migration? && m.captures == [] && KindFits(m.kind, m.devices)
    && |NodesWith(m.devices, Old)| == |NodesWith(m.devices, New)| == 1
    && Rebuilt(NodesWith(m.devices, Old)[0], NodesWith(m.devices, New)[0], pairs) == Some(m.mappings)
  }

  /** `o` is the old box and `n` the new one. */
  ghost predicate Between(m: Manifest, o: string, n: string) {
    m.kind.Migration? && NodesWith(m.devices, Old) == [o] && NodesWith(m.devices, New) == [n] && Functional(m.mappings)
  }

  lemma ApplyKeepsBetween(m: Manifest, e: Event, o: string, n: string)
    requires Between(m, o, n)
    ensures Between(Apply(m, e), o, n)
  {
    match e {
      case Capture(r, role, host, platform) =>
        var d := Device(r.device, host, platform, role);
        assert (m.devices + [d])[..|m.devices|] == m.devices;
      case Pair(from, to) => AddedIsInsertion(m.mappings, from, to);
      case Update(pairs) => UpdateAndLocks(m, pairs);
    }
  }

  /** In every state of a run each old endpoint maps to at most one new one, and the two boxes stay
      the same. */
  lemma {:induction false} RunKeepsBetween(m: Manifest, events: seq<Event>, o: string, n: string)
    requires Between(m, o, n)
    ensures Between(Exec(m, events), o, n)
  {
    if events != [] {
      RunKeepsBetween(m, events[..|events| - 1], o, n);
      ApplyKeepsBetween(Exec(m, events[..|events| - 1]), events[|events| - 1], o, n);
    }
  }

  lemma CreatedIsBetween(m: Manifest, pairs: seq<(string, string)>)
    requires Created(m, pairs)
    ensures exists o, n :: Between(m, o, n)
  {
    var o, n := NodesWith(m.devices, Old)[0], NodesWith(m.devices, New)[0];
    RebuiltHolds(o, n, pairs);
    assert Between(m, o, n);
  }

  /** A pairing, by its ends, with a capture that locks it. */
  ghost predicate LockedIn(m: Manifest, ends: (Place, Place)) {
    exists x, r | x in m.mappings && r in m.captures :: Ends(x) == ends && Locks(r, x)
  }

  lemma ReloadKeepsLocks(cs: seq<Record>, x: Mapping)
    requires Locked(cs, x)
    ensures Locked(ReloadedCaptures(cs), x)
  {}

  lemma PutKeepsLocks(cs: seq<Record>, r: Record, x: Mapping)
    requires Locked(cs, x)
    ensures Locked(Put(cs, r), x)
  {
    PutKeepsKeys(cs, r);
    var l :| l in cs && Locks(l, x);
    var i :| 0 <= i < |cs| && cs[i] == l;
    assert Put(cs, r)[i] in Put(cs, r);
  }

  /** Locks depend on the ends of a pairing only. */
  lemma LockedByEnds(cs: seq<Record>, x: Mapping, y: Mapping)
    requires Ends(x) == Ends(y) && Locked(cs, x)
    ensures Locked(cs, y)
  {}

  lemma LockedInState(m: Manifest, ends: (Place, Place), x: Mapping)
    requires x in m.mappings && Ends(x) == ends && Locked(m.captures, x)
    ensures LockedIn(m, ends)
  {}

  lemma LockSurvivesCapture(m: Manifest, e: Event, ends: (Place, Place), x: Mapping)
    requires e.Capture? && x in m.mappings && Ends(x) == ends && Locked(m.captures, x)
    ensures LockedIn(Apply(m, e), ends)
  {
    PutKeepsLocks(m.captures, e.record, x);
    ReloadKeepsLocks(Put(m.captures, e.record), x);
    LockedInState(Apply(m, e), ends, x);
  }

  lemma LockSurvivesPair(m: Manifest, e: Event, ends: (Place, Place), x: Mapping)
    requires e.Pair? && x in m.mappings && Ends(x) == ends && Locked(m.captures, x)
    ensures LockedIn(Apply(m, e), ends)
  {}

  lemma LockSurvivesUpdate(m: Manifest, e: Event, ends: (Place, Place), x: Mapping)
    requires e.Update? && x in m.mappings && Ends(x) == ends && Locked(m.captures, x)
    requires Between(m, ends.0.0, ends.1.0)
    ensures LockedIn(Apply(m, e), ends)
  {
    UpdateAndLocks(m, e.pairs);
    if Updated(m, e.pairs).Some? {
      ReloadKeepsLocks(m.captures, x);
      assert Has(Updated(m, e.pairs).value.mappings, ends);
      var y :| y in Updated(m, e.pairs).value.mappings && Ends(y) == ends;
      LockedByEnds(ReloadedCaptures(m.captures), x, y);
      LockedInState(Apply(m, e), ends, y);
    } else {
      LockedInState(m, ends, x);
    }
  }

  lemma LockSurvivesEvent(m: Manifest, e: Event, ends: (Place, Place))
    requires Between(m, ends.0.0, ends.1.0) && LockedIn(m, ends)
    ensures LockedIn(Apply(m, e), ends)
  {
    var x, l :| x in m.mappings && l in m.captures && Ends(x) == ends && Locks(l, x);
    match e {
      case Capture(_, _, _, _) => LockSurvivesCapture(m, e, ends, x);
      case Pair(_, _) => LockSurvivesPair(m, e, ends, x);
      case Update(_) => LockSurvivesUpdate(m, e, ends, x);
    }
  }

  lemma {:induction false} LockSurvivesRun(m: Manifest, events: seq<Event>, ends: (Place, Place))
    requires Between(m, ends.0.0, ends.1.0) && LockedIn(m, ends)
    ensures LockedIn(Exec(m, events), ends)
  {
    if events != [] {
      var before := events[..|events| - 1];
      LockSurvivesRun(m, before, ends);
      RunKeepsBetween(m, before, ends.0.0, ends.1.0);
      LockSurvivesEvent(Exec(m, before), events[|events| - 1], ends);
    }
  }

  lemma {:induction false} ExecConcat(m: Manifest, a: seq<Event>, b: seq<Event>)
    ensures Exec(m, a + b) == Exec(Exec(m, a), b)
  {
    if b == [] {
      assert a + b == a;
    } else {
      assert (a + b)[..|a + b| - 1] == a + b[..|b| - 1];
      ExecConcat(m, a, b[..|b| - 1]);
    }
  }

  /** Main theorem: over every run from a created one, a pairing of the two boxes that was locked at
      some point is present, and locked, ever after; and no old endpoint ever has two partners. */
  lemma LockedPairingStays(m: Manifest, pairs: seq<(string, string)>, before: seq<Event>, after: seq<Event>, ends: (Place, Place))
    requires Created(m, pairs)
    requires NodesWith(m.devices, Old) == [ends.0.0] && NodesWith(m.devices, New) == [ends.1.0]
    ensures Functional(Exec(m, before).mappings)
    ensures LockedIn(Exec(m, before), ends) ==>
              LockedIn(Exec(m, before + after), ends) && Has(Exec(m, before + after).mappings, ends)
  {
    CreatedIsBetween(m, pairs);
    RunKeepsBetween(m, before, ends.0.0, ends.1.0);
    if LockedIn(Exec(m, before), ends) {
      LockSurvivesRun(Exec(m, before), after, ends);
      ExecConcat(m, before, after);
    }
  }

  ghost predicate NoneNamedAll(cs: seq<Record>) {
    forall r | r in cs :: r.port != Some("all")
  }

  lemma ReloadIsIdentity(cs: seq<Record>)
    ensures ReloadedCaptures(cs) == cs <==> NoneNamedAll(cs)
    ensures NoneNamedAll(ReloadedCaptures(cs))
  {}

  /** An accepted capture of a port literally named "all" next to a whole-box one, which
      `find_capture` would have shown. */
  predicate Clashes(m: Manifest, e: Event) {
    && e.Capture? && e.record.port == Some("all")
    && KindFits(m.kind, WithBox(m.devices, Device(e.record.device, e.host, e.platform, e.role)))
    && Find(m.captures, (e.record.phase, e.record.device, None)).Some?
  }

  lemma {:induction false} FindFinds(cs: seq<Record>, key: CaptureKey)
    ensures Find(cs, key).Some? <==> exists i | 0 <= i < |cs| :: KeyOf(cs[i]) == key
  {
    if cs != [] {
      FindFinds(cs[1..], key);
      assert forall i | 0 < i < |cs| :: cs[i] == cs[1..][i - 1];
    }
  }

  lemma {:induction false} PutNew(cs: seq<Record>, r: Record)
    requires forall i | 0 <= i < |cs| :: KeyOf(cs[i]) != KeyOf(r)
    ensures Put(cs, r) == cs + [r]
  {
    if cs != [] {
      PutNew(cs[1..], r);
    }
  }

  lemma UniqueSnoc(cs: seq<Record>, r: Record)
    requires Unique(cs)
    ensures Unique(cs + [r]) <==> Find(cs, KeyOf(r)).None?
  {
    FindFinds(cs, KeyOf(r));
    var all := cs + [r];
    assert all[|cs|] == r && forall i | 0 <= i < |cs| :: all[i] == cs[i];
    if i :| 0 <= i < |cs| && KeyOf(cs[i]) == KeyOf(r) {
      assert KeyOf(all[i]) == KeyOf(all[|cs|]);
    }
  }

  /** A capture of a port named "all" is saved and read back as a whole-box one. */
  lemma AllBecomesWholeBox(cs: seq<Record>, r: Record)
    requires NoneNamedAll(cs) && r.port == Some("all")
    ensures ReloadedCaptures(Put(cs, r)) == cs + [r.(port := None)]
  {
    assert forall i | 0 <= i < |cs| :: cs[i] in cs;
    PutNew(cs, r);
    ReloadIsIdentity(cs);
    assert ReloadedCaptures(cs + [r]) == ReloadedCaptures(cs) + [r.(port := None)];
  }

  /** One event keeps the captures unique exactly when it does not clash. */
  lemma EventKeepsUnique(m: Manifest, e: Event)
    requires Unique(m.captures) && NoneNamedAll(m.captures)
    ensures NoneNamedAll(Apply(m, e).captures)
    ensures Unique(Apply(m, e).captures) <==> !Clashes(m, e)
  {
    ReloadIsIdentity(m.captures);
    if e.Capture? && e.record.port == Some("all") {
      AllBecomesWholeBox(m.captures, e.record);
      UniqueSnoc(m.captures, e.record.(port := None));
      ReloadIsIdentity(Put(m.captures, e.record));
    } else if e.Capture? {
      PutKeepsUnique(m.captures, e.record);
      PutKeepsKeys(m.captures, e.record);
      ReloadIsIdentity(Put(m.captures, e.record));
    }
  }

  /** A uniqueness that is lost never returns. */
  lemma LostStaysLost(m: Manifest, e: Event)
    requires !Unique(m.captures) && NoneNamedAll(m.captures)
    ensures !Unique(Apply(m, e).captures) && NoneNamedAll(Apply(m, e).captures)
  {
    ReloadIsIdentity(m.captures);
    var i, j :| 0 <= i < j < |m.captures| && KeyOf(m.captures[i]) == KeyOf(m.captures[j]);
    var after := Apply(m, e).captures;
    if e.Capture? {
      PutKeepsKeys(m.captures, e.record);
      ReloadIsIdentity(Put(m.captures, e.record));
      if after != m.captures {
        assert KeyOf(after[i]) == KeyOf(after[j]);
      }
    }
  }

  ghost predicate NeverClashes(m: Manifest, events: seq<Event>) {
    events == [] ||
    var before := events[..|events| - 1];
    NeverClashes(m, before) && !Clashes(Exec(m, before), events[|events| - 1])
  }

  /** Main theorem: captures are unique per (phase, device, port) after a run exactly when no capture
      of it clashed. */
  lemma {:induction false} CapturesUniqueExactly(m: Manifest, events: seq<Event>)
    requires Unique(m.captures) && NoneNamedAll(m.captures)
    ensures NoneNamedAll(Exec(m, events).captures)
    ensures Unique(Exec(m, events).captures) <==> NeverClashes(m, events)
  {
    if events != [] {
      var before := Exec(m, events[..|events| - 1]);
      CapturesUniqueExactly(m, events[..|events| - 1]);
      if Unique(before.captures) {
        EventKeepsUnique(before, events[|events| - 1]);
      } else {
        LostStaysLost(before, events[|events| - 1]);
      }
    }
  }

  /** Without a port named "all" they are. */
  lemma {:induction false} CapturesStayUnique(m: Manifest, events: seq<Event>)
    requires Unique(m.captures) && NoneNamedAll(m.captures)
    requires forall e | e in events && e.Capture? :: e.record.port != Some("all")
    ensures Unique(Exec(m, events).captures) && NoneNamedAll(Exec(m, events).captures)
  {
    if events != [] {
      CapturesStayUnique(m, events[..|events| - 1]);
      EventKeepsUnique(Exec(m, events[..|events| - 1]), events[|events| - 1]);
    }
  }

  /** And with one next to a whole-box capture they are not. */
  lemma PortNamedAllBreaksUniqueness(m: Manifest, r: Record)
    requires r.port == None && m.captures == [r] && Knows(m.devices, r.device) && KindFits(m.kind, m.devices)
    ensures !Unique(Exec(m, [Capture(r.(port := Some("all")), Old, "", "")]).captures)
  {
    var e := Capture(r.(port := Some("all")), Old, "", "");
    assert [e][..0] == [] && Exec(m, [e]) == Apply(m, e);
    EventKeepsUnique(m, e);
  }
}
