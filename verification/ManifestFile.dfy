/** Writing a manifest to run.yml and reading it back (runs/manifest.py), as conversions to and from
a YAML document. */
module ManifestFile {
  import opened Wrappers
  import opened Seqs
  import opened Manifest

  const SCHEMA_VERSION := 1

  type Pairs = seq<(string, Tree)>

  function Get(fields: Pairs, key: string): Tree {
    if fields == [] then Null else if fields[0].0 == key then fields[0].1 else Get(fields[1..], key)
  }

  // ----- Saving -----

  function RoleText(r: Role): string {
    match r case Old => "old" case New => "new" case L2Switch => "l2-switch" case Single => "single"
  }

  /** A key that is left out when there is nothing to say. */
  function Optional(key: string, text: Option<string>): Pairs {
    if text.Some? then [(key, Text(text.value))] else []
  }

  function DeviceItem(d: Device): (string, Tree) {
    (d.node, Fields([("host", Text(d.host)), ("platform", Text(d.platform)), ("role", Text(RoleText(d.role)))]))
  }

  function EndpointTree(e: Endpoint): Tree {
    Fields([("node", Text(e.node)), ("port", Text(e.port))] + if e.l2.Some? then [("l2_switch", Fields(e.l2.value))] else [])
  }

  function MappingTree(m: Mapping): Tree {
    Fields([("old", EndpointTree(m.from)), ("new", EndpointTree(m.to))])
  }

  function RecordTree(r: Record): Tree {
    Fields([("phase", Text(r.phase)), ("device", Text(r.device)), ("port", Text(if r.port.Some? then r.port.value else "all")),
            ("snapshot", Text(r.snapshot)), ("taken", Text(r.taken))])
  }

  /** None when the devices do not fit the kind of run. */
  function Save(m: Manifest): Option<Tree> {
    if !KindFits(m.kind, m.devices) then None
    else Some(Fields(
      [("schema_version", Number(SCHEMA_VERSION)), ("kind", Text(if m.kind.SingleRun? then "single" else "migration"))] +
      Optional("profile", m.profile) + Optional("group", m.group) + Optional("created_by", m.createdBy) +
      [("devices", Fields(Map(m.devices, DeviceItem))),
       ("interface_mapping", Items(Map(m.mappings, MappingTree))),
       ("captures", Items(Map(m.captures, RecordTree)))]))
  }

  // ----- Loading -----

  /** The elements' values when all of them load. */
  function All<S, T>(s: seq<S>, load: S -> Option<T>): Option<seq<T>> {
    if s == [] then Some([])
    else
      var head, tail := load(s[0]), All(s[1..], load);
      if head.Some? && tail.Some? then Some([head.value] + tail.value) else None
  }

  function LoadRole(t: Tree): Option<Role> {
    if t == Text("old") then Some(Old) else if t == Text("new") then Some(New)
    else if t == Text("l2-switch") then Some(L2Switch) else if t == Text("single") then Some(Single) else None
  }

  function LoadKind(t: Tree): Option<Kind> {
    if t == Null || t == Text("migration") then Some(Migration) else if t == Text("single") then Some(SingleRun) else None
  }

  function LoadDevice(item: (string, Tree)): Option<Device> {
    if !item.1.Fields? then None
    else
      var f := item.1.fields;
      var host, platform, role := Get(f, "host"), Get(f, "platform"), LoadRole(Get(f, "role"));
      if host.Text? && platform.Text? && role.Some? then Some(Device(item.0, host.text, platform.text, role.value)) else None
  }

  function LoadEndpoint(t: Tree): Option<Endpoint> {
    if !t.Fields? then None
    else
      var node, port, l2 := Get(t.fields, "node"), Get(t.fields, "port"), Get(t.fields, "l2_switch");
      if node.Text? && port.Text? && (l2.Null? || l2.Fields?)
      then Some(Endpoint(node.text, port.text, if l2.Fields? then Some(l2.fields) else None)) else None
  }

  function LoadMapping(t: Tree): Option<Mapping> {
    if !t.Fields? then None
    else
      var from, to := LoadEndpoint(Get(t.fields, "old")), LoadEndpoint(Get(t.fields, "new"));
      if from.Some? && to.Some? then Some(Mapping(from.value, to.value)) else None
  }

  function LoadRecord(t: Tree): Option<Record> {
    if !t.Fields? then None
    else
      var phase, device, snapshot, taken := Get(t.fields, "phase"), Get(t.fields, "device"), Get(t.fields, "snapshot"), Get(t.fields, "taken");
      var port := LoadText(Get(t.fields, "port"));
      if phase.Text? && device.Text? && snapshot.Text? && taken.Text? && port.Some?
      then Some(Record(phase.text, device.text, ReloadedPort(port.value), snapshot.text, taken.text)) else None
  }

  /** A text that may be missing. */
  function LoadText(t: Tree): Option<Option<string>> {
    if t.Null? then Some(None) else if t.Text? then Some(Some(t.text)) else None
  }

  function FieldsOf(t: Tree): Option<Pairs> {
    if t.Null? then Some([]) else if t.Fields? then Some(t.fields) else None
  }

  function ItemsOf(t: Tree): Option<seq<Tree>> {
    if t.Null? then Some([]) else if t.Items? then Some(t.items) else None
  }

  function LoadList<S, T>(items: Option<seq<S>>, load: S -> Option<T>): Option<seq<T>> {
    if items.None? then None else All(items.value, load)
  }

  /** The manifest made of the values found, None when one of them cannot be used. */
  function Assembled(kind: Option<Kind>, devices: Option<seq<Device>>, mappings: Option<seq<Mapping>>, captures: Option<seq<Record>>,
                     profile: Option<Option<string>>, group: Option<Option<string>>, createdBy: Option<Option<string>>): Option<Manifest> {
    if kind.None? || devices.None? || mappings.None? || captures.None? || profile.None? || group.None? || createdBy.None?
       || !KindFits(kind.value, devices.value) then None
    else Some(Manifest(devices.value, mappings.value, captures.value, kind.value, profile.value, group.value, createdBy.value))
  }

  /** None for every refusal. */
  function Load(t: Tree): Option<Manifest> {
    if !t.Fields? || Get(t.fields, "schema_version") != Number(SCHEMA_VERSION) then None
    else
      Assembled(LoadKind(Get(t.fields, "kind")),
                LoadList(FieldsOf(Get(t.fields, "devices")), LoadDevice),
                LoadList(ItemsOf(Get(t.fields, "interface_mapping")), LoadMapping),
                LoadList(ItemsOf(Get(t.fields, "captures")), LoadRecord),
                LoadText(Get(t.fields, "profile")), LoadText(Get(t.fields, "group")), LoadText(Get(t.fields, "created_by")))
  }

  // ----- The round trip -----

  lemma {:induction false} AllOf<S, T>(s: seq<S>, load: S -> Option<T>, r: seq<T>)
    requires |r| == |s| && forall i | 0 <= i < |s| :: load(s[i]) == Some(r[i])
    ensures All(s, load) == Some(r)
  {
    if s != [] {
      AllOf(s[1..], load, r[1..]);
      assert r == [r[0]] + r[1..];
    }
  }

  predicate Mentions(fields: Pairs, key: string) {
    fields != [] && (fields[0].0 == key || Mentions(fields[1..], key))
  }

  lemma {:induction false} GetConcat(a: Pairs, b: Pairs, key: string)
    ensures Get(a + b, key) == if Mentions(a, key) then Get(a, key) else Get(b, key)
    ensures Mentions(a + b, key) <==> Mentions(a, key) || Mentions(b, key)
  {
    if a == [] {
      assert a + b == b;
    } else {
      GetConcat(a[1..], b, key);
      assert (a + b)[1..] == a[1..] + b;
    }
  }

  lemma GetOne(p: (string, Tree), key: string)
    ensures Mentions([p], key) <==> p.0 == key
    ensures Get([p], key) == if p.0 == key then p.1 else Null
  {}

  lemma GetTwo(p: (string, Tree), q: (string, Tree), key: string)
    ensures Mentions([p, q], key) <==> key == p.0 || key == q.0
    ensures Get([p, q], key) == if p.0 == key then p.1 else if q.0 == key then q.1 else Null
  {
    GetOne(q, key);
    assert [p, q][1..] == [q];
  }

  lemma GetThree(p: (string, Tree), q: (string, Tree), r: (string, Tree), key: string)
    ensures Mentions([p, q, r], key) <==> key == p.0 || key == q.0 || key == r.0
    ensures Get([p, q, r], key) == if p.0 == key then p.1 else if q.0 == key then q.1 else if r.0 == key then r.1 else Null
  {
    GetTwo(q, r, key);
    assert [p, q, r][1..] == [q, r];
  }

  function TextTree(text: Option<string>): Tree {
    if text.Some? then Text(text.value) else Null
  }

  lemma GetOptional(name: string, text: Option<string>, key: string)
    ensures Mentions(Optional(name, text), key) <==> text.Some? && key == name
    ensures key == name ==> Get(Optional(name, text), key) == TextTree(text)
  {}

  lemma DeviceComesBack(d: Device)
    ensures LoadDevice(DeviceItem(d)) == Some(d)
  {
    var h, p, r := ("host", Text(d.host)), ("platform", Text(d.platform)), ("role", Text(RoleText(d.role)));
    assert "host"[0] != "role"[0];
    GetThree(h, p, r, "host");
    GetThree(h, p, r, "platform");
    GetThree(h, p, r, "role");
    RoleComesBack(d.role);
  }

  /** What is written about a box. */
  lemma DeviceFields(d: Device)
    ensures
      var item := DeviceItem(d);
      && item.0 == d.node && item.1.Fields?
      && Get(item.1.fields, "host") == Text(d.host) && Get(item.1.fields, "platform") == Text(d.platform)
      && Get(item.1.fields, "role") ==
         Text(match d.role case Old => "old" case New => "new" case L2Switch => "l2-switch" case Single => "single")
  {
    var h, p, r := ("host", Text(d.host)), ("platform", Text(d.platform)), ("role", Text(RoleText(d.role)));
    assert "host"[0] != "role"[0];
    GetThree(h, p, r, "host");
    GetThree(h, p, r, "platform");
    GetThree(h, p, r, "role");
  }

  lemma RoleComesBack(r: Role)
    ensures LoadRole(Text(RoleText(r))) == Some(r)
  {}

  lemma EndpointComesBack(e: Endpoint)
    ensures LoadEndpoint(EndpointTree(e)) == Some(e)
  {
    var n, p := ("node", Text(e.node)), ("port", Text(e.port));
    assert "node"[0] != "port"[0];
    if e.l2.Some? {
      var l := ("l2_switch", Fields(e.l2.value));
      assert EndpointTree(e).fields == [n, p, l];
      GetThree(n, p, l, "node");
      GetThree(n, p, l, "port");
      GetThree(n, p, l, "l2_switch");
    } else {
      assert EndpointTree(e).fields == [n, p];
      GetTwo(n, p, "node");
      GetTwo(n, p, "port");
      GetTwo(n, p, "l2_switch");
    }
  }

  /** What is written about a pairing. */
  lemma MappingFields(m: Mapping)
    ensures
      var t := MappingTree(m);
      && t.Fields? && Get(t.fields, "old") == EndpointTree(m.from) && Get(t.fields, "new") == EndpointTree(m.to)
      && forall e :: EndpointTree(e).Fields? && Get(EndpointTree(e).fields, "node") == Text(e.node)
                     && Get(EndpointTree(e).fields, "port") == Text(e.port)
                     && Get(EndpointTree(e).fields, "l2_switch") == if e.l2.Some? then Fields(e.l2.value) else Null
  {
    assert "old"[0] != "new"[0];
    GetTwo(("old", EndpointTree(m.from)), ("new", EndpointTree(m.to)), "old");
    GetTwo(("old", EndpointTree(m.from)), ("new", EndpointTree(m.to)), "new");
    forall e { EndpointFields(e); }
  }

  lemma EndpointFields(e: Endpoint)
    ensures
      var t := EndpointTree(e);
      && t.Fields? && Get(t.fields, "node") == Text(e.node) && Get(t.fields, "port") == Text(e.port)
      && Get(t.fields, "l2_switch") == if e.l2.Some? then Fields(e.l2.value) else Null
  {
    var n, p := ("node", Text(e.node)), ("port", Text(e.port));
    assert "node"[0] != "port"[0];
    if e.l2.Some? {
      var l := ("l2_switch", Fields(e.l2.value));
      assert EndpointTree(e).fields == [n, p, l];
      GetThree(n, p, l, "node");
      GetThree(n, p, l, "port");
      GetThree(n, p, l, "l2_switch");
    } else {
      assert EndpointTree(e).fields == [n, p];
      GetTwo(n, p, "node");
      GetTwo(n, p, "port");
      GetTwo(n, p, "l2_switch");
    }
  }

  lemma MappingComesBack(m: Mapping)
    ensures LoadMapping(MappingTree(m)) == Some(m)
  {
    EndpointComesBack(m.from);
    EndpointComesBack(m.to);
    assert "old"[0] != "new"[0];
    GetTwo(("old", EndpointTree(m.from)), ("new", EndpointTree(m.to)), "old");
    GetTwo(("old", EndpointTree(m.from)), ("new", EndpointTree(m.to)), "new");
  }

  lemma RecordField(r: Record, key: string)
    ensures
      var port := Text(if r.port.Some? then r.port.value else "all");
      Get(RecordTree(r).fields, key) ==
      if key == "phase" then Text(r.phase) else if key == "device" then Text(r.device) else if key == "port" then port
      else if key == "snapshot" then Text(r.snapshot) else if key == "taken" then Text(r.taken) else Null
  {
    var port := Text(if r.port.Some? then r.port.value else "all");
    var a, b, c := ("phase", Text(r.phase)), ("device", Text(r.device)), ("port", port);
    var d, e := ("snapshot", Text(r.snapshot)), ("taken", Text(r.taken));
    GetThree(a, b, c, key);
    GetTwo(d, e, key);
    GetConcat([a, b, c], [d, e], key);
    assert RecordTree(r).fields == [a, b, c] + [d, e];
  }

  lemma RecordComesBack(r: Record)
    ensures LoadRecord(RecordTree(r)) == Some(r.(port := ReloadedPort(r.port)))
  {
    assert "phase"[0] != "taken"[0];
    RecordField(r, "phase");
    RecordField(r, "device");
    RecordField(r, "port");
    RecordField(r, "snapshot");
    RecordField(r, "taken");
  }

  function KindText(kind: Kind): Tree {
    Text(if kind.SingleRun? then "single" else "migration")
  }

  /** What the saved manifest holds under any key. */
  lemma SavedField(m: Manifest, key: string)
    requires KindFits(m.kind, m.devices)
    ensures
      Get(Save(m).value.fields, key) ==
      if key == "schema_version" then Number(1) else if key == "kind" then Text(if m.kind.SingleRun? then "single" else "migration")
      else if key == "profile" then TextTree(m.profile) else if key == "group" then TextTree(m.group)
      else if key == "created_by" then TextTree(m.createdBy)
      else if key == "devices" then Fields(Map(m.devices, DeviceItem))
      else if key == "interface_mapping" then Items(Map(m.mappings, MappingTree))
      else if key == "captures" then Items(Map(m.captures, RecordTree)) else Null
  {
    var head := [("schema_version", Number(SCHEMA_VERSION)), ("kind", KindText(m.kind))];
    var p, g, c := Optional("profile", m.profile), Optional("group", m.group), Optional("created_by", m.createdBy);
    var tail := [("devices", Fields(Map(m.devices, DeviceItem))),
                 ("interface_mapping", Items(Map(m.mappings, MappingTree))),
                 ("captures", Items(Map(m.captures, RecordTree)))];
    GetTwo(head[0], head[1], key);
    GetThree(tail[0], tail[1], tail[2], key);
    GetOptional("profile", m.profile, key);
    GetOptional("group", m.group, key);
    GetOptional("created_by", m.createdBy, key);
    GetConcat(head + p + g + c, tail, key);
    GetConcat(head + p + g, c, key);
    GetConcat(head + p, g, key);
    GetConcat(head, p, key);
    assert "profile"[0] != "devices"[0];
    assert Save(m).value.fields == head + p + g + c + tail;
  }

  lemma DevicesComeBack(devices: seq<Device>)
    ensures LoadList(FieldsOf(Fields(Map(devices, DeviceItem))), LoadDevice) == Some(devices)
  {
    forall i | 0 <= i < |devices| ensures LoadDevice(Map(devices, DeviceItem)[i]) == Some(devices[i]) {
      DeviceComesBack(devices[i]);
    }
    AllOf(Map(devices, DeviceItem), LoadDevice, devices);
  }

  lemma MappingsComeBack(mappings: seq<Mapping>)
    ensures LoadList(ItemsOf(Items(Map(mappings, MappingTree))), LoadMapping) == Some(mappings)
  {
    forall i | 0 <= i < |mappings| ensures LoadMapping(Map(mappings, MappingTree)[i]) == Some(mappings[i]) {
      MappingComesBack(mappings[i]);
    }
    AllOf(Map(mappings, MappingTree), LoadMapping, mappings);
  }

  lemma CapturesComeBack(captures: seq<Record>)
    ensures LoadList(ItemsOf(Items(Map(captures, RecordTree))), LoadRecord) == Some(ReloadedCaptures(captures))
  {
    forall i | 0 <= i < |captures| ensures LoadRecord(Map(captures, RecordTree)[i]) == Some(ReloadedCaptures(captures)[i]) {
      RecordComesBack(captures[i]);
    }
    AllOf(Map(captures, RecordTree), LoadRecord, ReloadedCaptures(captures));
  }

  ghost predicate Holds(f: Pairs, m: Manifest) {
    && Get(f, "schema_version") == Number(SCHEMA_VERSION) && Get(f, "kind") == KindText(m.kind)
    && Get(f, "profile") == TextTree(m.profile) && Get(f, "group") == TextTree(m.group) && Get(f, "created_by") == TextTree(m.createdBy)
    && Get(f, "devices") == Fields(Map(m.devices, DeviceItem))
    && Get(f, "interface_mapping") == Items(Map(m.mappings, MappingTree))
    && Get(f, "captures") == Items(Map(m.captures, RecordTree))
  }

  lemma SavedHolds(m: Manifest)
    requires KindFits(m.kind, m.devices)
    ensures Holds(Save(m).value.fields, m)
  {
    SavedField(m, "schema_version");
    SavedField(m, "kind");
    SavedField(m, "profile");
    SavedField(m, "group");
    SavedField(m, "created_by");
    assert "profile"[0] != "devices"[0];
    SavedField(m, "devices");
    SavedField(m, "interface_mapping");
    SavedField(m, "captures");
  }

  lemma ScalarsComeBack(f: Pairs, m: Manifest)
    requires Get(f, "kind") == KindText(m.kind)
    requires Get(f, "profile") == TextTree(m.profile) && Get(f, "group") == TextTree(m.group) && Get(f, "created_by") == TextTree(m.createdBy)
    ensures LoadKind(Get(f, "kind")) == Some(m.kind)
    ensures LoadText(Get(f, "profile")) == Some(m.profile) && LoadText(Get(f, "group")) == Some(m.group)
    ensures LoadText(Get(f, "created_by")) == Some(m.createdBy)
  {}

  /** Every manifest whose devices fit its kind can be saved, and loads as itself except that a
      port named "all" becomes the whole box; so load undoes save exactly when there is none. */
  lemma LoadUndoesSave(m: Manifest)
    requires KindFits(m.kind, m.devices)
    ensures Save(m).Some? && Load(Save(m).value) == Some(Reloaded(m))
    ensures Load(Save(m).value) == Some(m) <==> NoneNamedAll(m.captures)
  {
    var f := Save(m).value.fields;
    SavedHolds(m);
    ScalarsComeBack(f, m);
    assert LoadList(FieldsOf(Get(f, "devices")), LoadDevice) == Some(m.devices) by { DevicesComeBack(m.devices); }
    assert LoadList(ItemsOf(Get(f, "interface_mapping")), LoadMapping) == Some(m.mappings) by { MappingsComeBack(m.mappings); }
    assert LoadList(ItemsOf(Get(f, "captures")), LoadRecord) == Some(ReloadedCaptures(m.captures)) by { CapturesComeBack(m.captures); }
    ReloadIsIdentity(m.captures);
  }

  /** Whatever is loaded has the version this code writes, a kind it knows, and devices that fit it. */
  lemma LoadedFits(t: Tree)
    requires Load(t).Some?
    ensures t.Fields? && Get(t.fields, "schema_version") == Number(1) && KindFits(Load(t).value.kind, Load(t).value.devices)
    ensures Get(t.fields, "kind") in {Null, Text("migration"), Text("single")}
    ensures Load(t).value.kind.SingleRun? <==> Get(t.fields, "kind") == Text("single")
  {}
}
