/** The `checks` section of a profile: loading it (config.py) and stripping it down to what differs
from the defaults before it is saved (profiles/store.py). */
module Profiles {
  import opened Wrappers

  /** A YAML value.  Numbers compare by value, so 5 and 5.0 are one; `Other` is any list or
      mapping. */
  datatype Value = Bool(b: bool) | Num(n: real) | Str(s: string) | Null | Other(text: string)

  type Options = map<string, Value>

  /** What a section may hold under a check id. */
  datatype Entry = Nothing | Mapping(options: Options) | Scalar(value: Value)

  type Section = map<string, Entry>

  /** The option defaults and the registered checks with their default severity. */
  datatype Registry = Registry(defaults: map<string, Options>, severities: map<string, string>)

  const SEVERITIES := {"advisory", "critical"}

  const DEFAULTS: map<string, Options> := map[
    "interface_traffic" := map["tolerance_percent" := Num(-60.0), "require_nonzero" := Bool(true)],
    "interface_optics_levels" := map["tolerance_db" := Num(2.0)],
    "bgp_prefix_counts" := map["tolerance_percent" := Num(-10.0)],
    "evpn_mac_count" := map["tolerance_percent" := Num(-60.0)],
    "ping_reachability" := map["count" := Num(5.0)],
    "traffic_ceased" := map["enabled" := Bool(false), "max_residual_pps" := Num(1.0)]]

  datatype Kind = Boolean | Number | Text

  function OptionType(v: Value): Kind {
    if v.Bool? then Boolean else if v.Num? then Number else Text
  }

  predicate MatchesType(v: Value, k: Kind) {
    match k case Boolean => v.Bool? case Number => v.Num? case Text => v.Str?
  }

  function Truthy(v: Value): bool {
    match v case Bool(b) => b case Num(n) => n != 0.0 case Str(s) => s != "" case Null => false case Other(t) => t != ""
  }

  function DefaultsOf(reg: Registry, id: string): Options {
    if id in reg.defaults then reg.defaults[id] else map[]
  }

  /** What holds of the table above: every default has a type of its own, and `enabled` is a
      boolean where it is given at all. */
  ghost predicate SensibleOptions(o: Options) {
    forall key | key in o :: key != "severity" && (o[key].Bool? || (key != "enabled" && (o[key].Num? || o[key].Str?)))
  }

  ghost predicate Sensible(reg: Registry) {
    && (forall id | id in reg.defaults :: SensibleOptions(reg.defaults[id]))
    && (forall id | id in reg.severities :: reg.severities[id] in SEVERITIES)
  }

  lemma DefaultsAreSensible(severities: map<string, string>)
    requires forall id | id in severities :: severities[id] in SEVERITIES
    ensures Sensible(Registry(DEFAULTS, severities))
  {
    assert SensibleOptions(map["tolerance_percent" := Num(-60.0), "require_nonzero" := Bool(true)]);
    assert SensibleOptions(map["enabled" := Bool(false), "max_residual_pps" := Num(1.0)]);
  }

  // ----- Loading -----

  predicate OptionAccepted(reg: Registry, id: string, key: string, v: Value) {
    var defaults := DefaultsOf(reg, id);
    if key == "severity" then v.Str? && v.s in SEVERITIES
    else if key == "enabled" then v.Bool?
    else key in defaults ==> MatchesType(v, OptionType(defaults[key]))
  }

  predicate EntryAccepted(reg: Registry, id: string, e: Entry) {
    !e.Scalar? && (e.Mapping? ==> forall key | key in e.options :: OptionAccepted(reg, id, key, e.options[key]))
  }

  predicate Accepted(reg: Registry, section: Section) {
    forall id | id in section :: EntryAccepted(reg, id, section[id])
  }

  function OptionsOf(e: Entry): Options {
    if e.Mapping? then e.options else map[]
  }

  function Load(section: Section): map<string, Options> {
    map id | id in section :: OptionsOf(section[id])
  }

  method ValidateChecks(reg: Registry, section: Section) returns (r: Option<map<string, Options>>)
    ensures r == if Accepted(reg, section) then Some(Load(section)) else None
  {
    var checks: map<string, Options> := map[];
    var todo := section.Keys;
    while todo != {}
      invariant todo <= section.Keys
      invariant checks == map id | id in section && id !in todo :: OptionsOf(section[id])
      invariant forall id | id in section && id !in todo :: EntryAccepted(reg, id, section[id])
      decreases todo
    {
      var id :| id in todo;
      todo := todo - {id};
      if section[id].Scalar? {
        assert !EntryAccepted(reg, id, section[id]);
        return None;
      }
      var overrides := OptionsOf(section[id]);
      var keys := overrides.Keys;
      while keys != {}
        invariant keys <= overrides.Keys
        invariant forall key | key in overrides && key !in keys :: OptionAccepted(reg, id, key, overrides[key])
        decreases keys
      {
        var key :| key in keys;
        keys := keys - {key};
        if !OptionAccepted(reg, id, key, overrides[key]) {
          assert section[id].Mapping? && overrides == section[id].options;
          assert !EntryAccepted(reg, id, section[id]);
          return None;
        }
      }
      checks := checks[id := overrides];
    }
    assert Accepted(reg, section) && checks == Load(section);
    r := Some(checks);
  }

  // ----- Effective settings (CheckConfig) -----

  function Given(loaded: map<string, Options>, id: string): Options {
    if id in loaded then loaded[id] else map[]
  }

  /** The options of one check: the defaults, overridden by what is given. */
  function Merged(reg: Registry, id: string, given: Options): Options {
    DefaultsOf(reg, id) + given
  }

  function Enabled(reg: Registry, id: string, given: Options): bool {
    var merged := Merged(reg, id, given);
    if "enabled" in merged then Truthy(merged["enabled"]) else true
  }

  /** None when the text names no severity, which the loader prevents. */
  function SeverityOf(reg: Registry, id: string, given: Options): Option<string>
    requires id in reg.severities
  {
    var merged := Merged(reg, id, given);
    if "severity" !in merged || !Truthy(merged["severity"]) then Some(reg.severities[id])
    else if merged["severity"].Str? && merged["severity"].s in SEVERITIES then Some(merged["severity"].s)
    else None
  }

  /** Two option lists of one check mean the same. */
  ghost predicate SameFor(reg: Registry, id: string, a: Options, b: Options)
    requires id in reg.severities
  {
    && Enabled(reg, id, a) == Enabled(reg, id, b)
    && SeverityOf(reg, id, a) == SeverityOf(reg, id, b)
    && forall key | key in DefaultsOf(reg, id) :: Merged(reg, id, a)[key] == Merged(reg, id, b)[key]
  }

  /** Two loaded sections mean the same for every registered check. */
  ghost predicate SameSettings(reg: Registry, a: map<string, Options>, b: map<string, Options>) {
    forall id | id in reg.severities :: SameFor(reg, id, Given(a, id), Given(b, id))
  }

  // ----- Stripping -----

  function DefaultEnabled(reg: Registry, id: string): bool {
    var defaults := DefaultsOf(reg, id);
    if "enabled" in defaults then Truthy(defaults["enabled"]) else true
  }

  /** An override that `strip_check_defaults` drops. */
  predicate Redundant(reg: Registry, id: string, key: string, v: Value)
    requires id in reg.severities
  {
    var defaults := DefaultsOf(reg, id);
    if v.Null? then true
    else if key == "enabled" then v.Bool? && v.b == DefaultEnabled(reg, id)
    else if key == "severity" then v == Str(reg.severities[id])
    else key in defaults && MatchesType(v, OptionType(defaults[key])) && v == defaults[key]
  }

  function StripOptions(reg: Registry, id: string, o: Options): Options
    requires id in reg.severities
  {
    map key | key in o && !Redundant(reg, id, key, o[key]) :: o[key]
  }

  /** None when the check disappears. */
  function StripEntry(reg: Registry, id: string, e: Entry): Option<Entry> {
    if !e.Mapping? || id !in reg.severities then Some(e)
    else
      var kept := StripOptions(reg, id, e.options);
      if kept == map[] then None else Some(Mapping(kept))
  }

  function Strip(reg: Registry, section: Section): Section {
    map id | id in section && StripEntry(reg, id, section[id]).Some? :: StripEntry(reg, id, section[id]).value
  }

  method StripCheckDefaults(reg: Registry, section: Section) returns (result: Section)
    ensures result == Strip(reg, section)
  {
    result := map[];
    var todo := section.Keys;
    while todo != {}
      invariant todo <= section.Keys
      invariant result == map id | id in section && id !in todo && StripEntry(reg, id, section[id]).Some? :: StripEntry(reg, id, section[id]).value
      decreases todo
    {
      var id :| id in todo;
      todo := todo - {id};
      if !section[id].Mapping? || id !in reg.severities {
        result := result[id := section[id]];
        continue;
      }
      var overrides := section[id].options;
      var kept: Options := map[];
      var keys := overrides.Keys;
      while keys != {}
        invariant keys <= overrides.Keys
        invariant kept == map key | key in overrides && key !in keys && !Redundant(reg, id, key, overrides[key]) :: overrides[key]
        decreases keys
      {
        var key :| key in keys;
        keys := keys - {key};
        if !Redundant(reg, id, key, overrides[key]) {
          kept := kept[key := overrides[key]];
        }
      }
      assert kept == StripOptions(reg, id, overrides);
      if kept != map[] {
        result := result[id := Mapping(kept)];
      }
    }
  }

  // ----- Main results -----

  predicate OptionsAccepted(reg: Registry, id: string, o: Options) {
    forall key | key in o :: OptionAccepted(reg, id, key, o[key])
  }

  /** One accepted option list and its stripped form mean the same. */
  lemma StripOptionsKeepsMeaning(reg: Registry, id: string, o: Options)
    requires Sensible(reg) && id in reg.severities && OptionsAccepted(reg, id, o)
    ensures OptionsAccepted(reg, id, StripOptions(reg, id, o)) && SameFor(reg, id, o, StripOptions(reg, id, o))
  {}

  lemma LoadedStrip(reg: Registry, section: Section, id: string)
    requires id in reg.severities && Accepted(reg, section)
    ensures OptionsAccepted(reg, id, Given(Load(section), id))
    ensures Given(Load(Strip(reg, section)), id) == StripOptions(reg, id, Given(Load(section), id))
  {}

  lemma StripStaysAccepted(reg: Registry, section: Section)
    requires Accepted(reg, section)
    ensures Accepted(reg, Strip(reg, section))
  {}

  /** Stripping keeps a section loadable and every setting of every registered check. */
  lemma StripPreservesSettings(reg: Registry, section: Section)
    requires Sensible(reg) && Accepted(reg, section)
    ensures Accepted(reg, Strip(reg, section))
    ensures SameSettings(reg, Load(section), Load(Strip(reg, section)))
  {
    StripStaysAccepted(reg, section);
    forall id | id in reg.severities
      ensures SameFor(reg, id, Given(Load(section), id), Given(Load(Strip(reg, section)), id))
    {
      LoadedStrip(reg, section, id);
      StripOptionsKeepsMeaning(reg, id, Given(Load(section), id));
    }
  }

  /** Stripping a stripped section changes nothing, whether the loader accepts it or not. */
  lemma StripIsIdempotent(reg: Registry, section: Section)
    ensures Strip(reg, Strip(reg, section)) == Strip(reg, section)
  {
    var once := Strip(reg, section);
    forall id | id in once ensures StripEntry(reg, id, once[id]) == Some(once[id]) {
      if once[id].Mapping? && id in reg.severities {
        assert StripOptions(reg, id, once[id].options) == once[id].options;
      }
    }
  }

  /** Only options that mean something for this check. */
  ghost predicate KnownOptions(reg: Registry, id: string, o: Options) {
    forall key | key in o :: key in {"enabled", "severity"} || key in DefaultsOf(reg, id)
  }

  ghost predicate OnlyKnown(reg: Registry, section: Section) {
    forall id | id in section :: id in reg.severities && KnownOptions(reg, id, OptionsOf(section[id]))
  }

  function Nothings(section: Section): set<string> {
    set id | id in section && section[id].Nothing?
  }

  /** What is kept of one check follows from its effective settings. */
  lemma KeptFollowsFromSettings(reg: Registry, id: string, a: Options, b: Options, key: string)
    requires Sensible(reg) && id in reg.severities
    requires OptionsAccepted(reg, id, a) && OptionsAccepted(reg, id, b)
    requires KnownOptions(reg, id, a) && SameFor(reg, id, a, b)
    requires key in StripOptions(reg, id, a)
    ensures key in StripOptions(reg, id, b) && StripOptions(reg, id, b)[key] == StripOptions(reg, id, a)[key]
  {}

  lemma SameSettingsSameKept(reg: Registry, id: string, a: Options, b: Options)
    requires Sensible(reg) && id in reg.severities
    requires OptionsAccepted(reg, id, a) && OptionsAccepted(reg, id, b)
    requires KnownOptions(reg, id, a) && KnownOptions(reg, id, b) && SameFor(reg, id, a, b)
    ensures StripOptions(reg, id, a) == StripOptions(reg, id, b)
  {
    forall key | key in StripOptions(reg, id, a) {
      KeptFollowsFromSettings(reg, id, a, b, key);
    }
    forall key | key in StripOptions(reg, id, b) {
      KeptFollowsFromSettings(reg, id, b, a, key);
    }
  }

  lemma NothingsSurvive(reg: Registry, section: Section)
    ensures Nothings(Strip(reg, section)) == Nothings(section)
  {}

  /** A stripped section is made of what it keeps of each check and of its empty checks. */
  lemma StripIsDetermined(reg: Registry, a: Section, b: Section)
    requires Accepted(reg, a) && Accepted(reg, b) && OnlyKnown(reg, a) && OnlyKnown(reg, b)
    requires Nothings(a) == Nothings(b)
    requires forall id | id in reg.severities :: StripOptions(reg, id, Given(Load(a), id)) == StripOptions(reg, id, Given(Load(b), id))
    ensures Strip(reg, a) == Strip(reg, b)
  {
    var sa, sb := Strip(reg, a), Strip(reg, b);
    forall id ensures id in sa <==> id in sb
              ensures id in sa && id in sb ==> sa[id] == sb[id]
    {
      assert id in Nothings(a) <==> id in Nothings(b);
      assert id in a ==> EntryAccepted(reg, id, a[id]);
      assert id in b ==> EntryAccepted(reg, id, b[id]);
      if id in reg.severities {
        assert StripOptions(reg, id, Given(Load(a), id)) == StripOptions(reg, id, Given(Load(b), id));
      }
    }
  }

  /** Main theorem: among accepted sections with known checks and options only, the stripped form
      is a canonical form of the settings, up to checks left empty (`id:` with no value), which the
      loader reads as an empty mapping and stripping does not remove. */
  lemma StripIsCanonical(reg: Registry, a: Section, b: Section)
    requires Sensible(reg) && Accepted(reg, a) && Accepted(reg, b) && OnlyKnown(reg, a) && OnlyKnown(reg, b)
    ensures Strip(reg, a) == Strip(reg, b) <==>
            SameSettings(reg, Load(a), Load(b)) && Nothings(a) == Nothings(b)
  {
    if Strip(reg, a) == Strip(reg, b) {
      NothingsSurvive(reg, a);
      NothingsSurvive(reg, b);
      StripPreservesSettings(reg, a);
      StripPreservesSettings(reg, b);
    }
    if SameSettings(reg, Load(a), Load(b)) && Nothings(a) == Nothings(b) {
      forall id | id in reg.severities ensures StripOptions(reg, id, Given(Load(a), id)) == StripOptions(reg, id, Given(Load(b), id)) {
        LoadedStrip(reg, a, id);
        LoadedStrip(reg, b, id);
        SameSettingsSameKept(reg, id, Given(Load(a), id), Given(Load(b), id));
      }
      StripIsDetermined(reg, a, b);
    }
  }

  /** Without the condition on empty checks it fails: they set nothing, yet survive. */
  lemma EmptyCheckSurvives(reg: Registry, id: string)
    requires Sensible(reg) && id in reg.severities
    ensures Accepted(reg, map[id := Nothing]) && SameSettings(reg, Load(map[id := Nothing]), Load(map[]))
    ensures Strip(reg, map[id := Nothing]) != Strip(reg, map[])
  {}

  // ----- The same in terms of the sections and the registry alone -----

  /** The check has a default for this option. */
  predicate HasDefault(reg: Registry, id: string, key: string) {
    id in reg.defaults && key in reg.defaults[id]
  }

  predicate SameType(v: Value, default: Value) {
    match default case Bool(_) => v.Bool? case Num(_) => v.Num? case _ => v.Str?
  }

  /** The loader accepts a section exactly when each check is empty or a mapping in which `severity` is one
      of the two texts, `enabled` a boolean, and every option with a default of the default's type. */
  lemma AcceptedExactly(reg: Registry, section: Section)
    ensures Accepted(reg, section) <==>
            forall id | id in section ::
              match section[id]
              case Nothing => true
              case Scalar(_) => false
              case Mapping(o) =>
                && ("severity" in o ==> o["severity"] == Str("advisory") || o["severity"] == Str("critical"))
                && ("enabled" in o ==> o["enabled"].Bool?)
                && forall key | key in o && key != "severity" && key != "enabled" && HasDefault(reg, id, key) :: SameType(o[key], reg.defaults[id][key])
  {
    forall id | id in section && section[id].Mapping?
      ensures EntryAccepted(reg, id, section[id]) <==>
              var o := section[id].options;
              && ("severity" in o ==> o["severity"] == Str("advisory") || o["severity"] == Str("critical"))
              && ("enabled" in o ==> o["enabled"].Bool?)
              && forall key | key in o && key != "severity" && key != "enabled" && HasDefault(reg, id, key) :: SameType(o[key], reg.defaults[id][key])
    {
      MappingAccepted(reg, id, section[id].options);
    }
  }

  lemma MappingAccepted(reg: Registry, id: string, o: Options)
    ensures EntryAccepted(reg, id, Mapping(o)) <==>
            && ("severity" in o ==> o["severity"] == Str("advisory") || o["severity"] == Str("critical"))
            && ("enabled" in o ==> o["enabled"].Bool?)
            && forall key | key in o && key != "severity" && key != "enabled" && HasDefault(reg, id, key) :: SameType(o[key], reg.defaults[id][key])
  {
    forall key | key in o
      ensures OptionAccepted(reg, id, key, o[key]) <==>
              if key == "severity" then o[key] == Str("advisory") || o[key] == Str("critical")
              else if key == "enabled" then o[key].Bool?
              else HasDefault(reg, id, key) ==> SameType(o[key], reg.defaults[id][key])
    {}
  }

  /** The settings of a check: what an accepted section gives, else the default, else enabled with the
      severity of the registry. */
  lemma SettingsExactly(reg: Registry, id: string, o: Options)
    requires Sensible(reg) && id in reg.severities && OptionsAccepted(reg, id, o)
    ensures Enabled(reg, id, o) <==>
            if "enabled" in o then o["enabled"] == Bool(true)
            else HasDefault(reg, id, "enabled") ==> reg.defaults[id]["enabled"] == Bool(true)
    ensures SeverityOf(reg, id, o) == Some(if "severity" in o then o["severity"].s else reg.severities[id])
    ensures forall key | key in o || HasDefault(reg, id, key) ::
              key in Merged(reg, id, o) && Merged(reg, id, o)[key] == if key in o then o[key] else reg.defaults[id][key]
  {
    assert "severity" in o ==> OptionAccepted(reg, id, "severity", o["severity"]);
    assert "enabled" in o ==> OptionAccepted(reg, id, "enabled", o["enabled"]);
  }

  /** An override that says nothing new: none at all, or what holds without it. */
  predicate SaysNothing(reg: Registry, id: string, key: string, v: Value)
    requires id in reg.severities
  {
    || v == Null
    || (key == "enabled" && v == if HasDefault(reg, id, key) then reg.defaults[id][key] else Bool(true))
    || (key == "severity" && v == Str(reg.severities[id]))
    || (HasDefault(reg, id, key) && v == reg.defaults[id][key])
  }

  /** Stripping keeps exactly the overrides that say something, the checks left with one, and, as they
      are, the entries that are no mapping and the checks it does not know. */
  lemma StripExactly(reg: Registry, section: Section, id: string)
    requires Sensible(reg) && id in section
    ensures
      var r := Strip(reg, section);
      match section[id]
      case Mapping(o) =>
        if id !in reg.severities then id in r && r[id] == section[id]
        else if forall key | key in o :: SaysNothing(reg, id, key, o[key]) then id !in r
        else id in r && r[id] == Mapping(map key | key in o && !SaysNothing(reg, id, key, o[key]) :: o[key])
      case _ => id in r && r[id] == section[id]
  {
    if section[id].Mapping? && id in reg.severities {
      StripOptionsExactly(reg, id, section[id].options);
    }
  }

  lemma StripOptionsExactly(reg: Registry, id: string, o: Options)
    requires Sensible(reg) && id in reg.severities
    ensures StripOptions(reg, id, o) == map key | key in o && !SaysNothing(reg, id, key, o[key]) :: o[key]
    ensures StripOptions(reg, id, o) == map[] <==> forall key | key in o :: SaysNothing(reg, id, key, o[key])
  {
    forall key | key in o ensures Redundant(reg, id, key, o[key]) <==> SaysNothing(reg, id, key, o[key]) {
      RedundantIs(reg, id, key, o[key]);
    }
    if StripOptions(reg, id, o) == map[] {
      forall key | key in o ensures SaysNothing(reg, id, key, o[key]) {
        assert key !in StripOptions(reg, id, o);
      }
    }
  }

  lemma RedundantIs(reg: Registry, id: string, key: string, v: Value)
    requires Sensible(reg) && id in reg.severities
    ensures Redundant(reg, id, key, v) <==> SaysNothing(reg, id, key, v)
  {
    assert id in reg.defaults ==> SensibleOptions(reg.defaults[id]);
  }
}
