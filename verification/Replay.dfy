/** Recording a NETCONF session and answering from the recording: raw/calls.py, raw/recorder.py
and raw/replay.py. */
module Replay {
  import opened Wrappers

  // ----- Calls and their identity (raw/calls.py) -----

  datatype Xml = Element(name: string, text: string, children: seq<Xml>) | Comment(text: string)

  datatype Json = Null | Bool(b: bool) | Number(n: real) | Str(s: string)

  datatype Arg = Plain(value: Json) | Tree(xml: Xml)

  datatype Call = Call(rpc: string, kwargs: map<string, Arg>)

  /** Serialisation of elements and of call keys.  Nothing is assumed about either: two calls that
      happen to share a key are simply queued together, when recording and when replaying. */
  datatype Codec = Codec(text: Xml -> string, key: (string, map<string, Arg>) -> string)

  const GET_CONFIG := "get_config"
  const FILTER := "filter_xml"

  function CanonicalArg(codec: Codec, a: Arg): Arg {
    if a.Tree? then Plain(Str(codec.text(a.xml))) else a
  }

  function CanonicalKwargs(codec: Codec, c: Call): map<string, Arg> {
    map k | k in c.kwargs && !(c.rpc == GET_CONFIG && k == FILTER) :: CanonicalArg(codec, c.kwargs[k])
  }

  method FillCanonicalKwargs(codec: Codec, c: Call) returns (out: map<string, Arg>)
    ensures out == CanonicalKwargs(codec, c)
  {
    out := map[];
    var todo := c.kwargs.Keys;
    while todo != {}
      invariant todo <= c.kwargs.Keys
      invariant out == map k | k in c.kwargs && k !in todo && !(c.rpc == GET_CONFIG && k == FILTER) :: CanonicalArg(codec, c.kwargs[k])
      decreases todo
    {
      var k :| k in todo;
      todo := todo - {k};
      if c.rpc == GET_CONFIG && k == FILTER {
        continue;
      }
      out := out[k := CanonicalArg(codec, c.kwargs[k])];
    }
  }

  function KeyOf(codec: Codec, c: Call): string {
    codec.key(c.rpc, CanonicalKwargs(codec, c))
  }

  function Names(children: seq<Xml>): seq<string> {
    if children == [] then []
    else (if children[0].Element? then [children[0].name] else []) + Names(children[1..])
  }

  /** The top-level hierarchies a get_config asks for, None for any other call or when it carries
      no filter. */
  function ConfigFilter(c: Call): Option<seq<string>> {
    if c.rpc == GET_CONFIG && FILTER in c.kwargs && c.kwargs[FILTER].Tree? && c.kwargs[FILTER].xml.Element? then
      Some(Names(c.kwargs[FILTER].xml.children))
    else None
  }

  // ----- Replies -----

  /** `Opaque` is any reply that is neither an element nor a JSON scalar; `text` is its `str()`. */
  datatype Reply = Doc(xml: Xml) | Scalar(value: Json) | Opaque(text: string)

  /** Answer and Error come from a device or a recording; the other two only from a replay. */
  datatype Outcome =
    | Answer(reply: Reply)
    | Error(kind: string, message: string)
    | NotRecorded
    | Untrimmable

  predicate FromDevice(o: Outcome) {
    o.Answer? || o.Error?
  }

  /** What the recorder keeps of an outcome, as the replayer hands it out again. */
  function Kept(o: Outcome): Outcome {
    match o
    case Answer(Opaque(text)) => Answer(Scalar(Str(text)))
    case Error(kind, message) => Error(if kind == "" then "RpcError" else kind, message)
    case _ => o
  }

  /** One line of the log (RecordedCall). */
  datatype Entry = Entry(number: nat, rpc: string, kwargs: map<string, Arg>, filter: Option<seq<string>>, kept: Outcome)

  function EntryOf(codec: Codec, number: nat, c: Call, o: Outcome): Entry {
    Entry(number, c.rpc, CanonicalKwargs(codec, c), ConfigFilter(c), Kept(o))
  }

  class Recorder {
    var calls: seq<Entry>

    constructor ()
      ensures calls == []
    {
      calls := [];
    }

    /** The wrapper around one RPC: the caller gets the device's outcome untouched. */
    method Record(codec: Codec, c: Call, fromDevice: Outcome) returns (o: Outcome)
      modifies this
      ensures o == fromDevice
      ensures calls == old(calls) + [EntryOf(codec, |old(calls)| + 1, c, fromDevice)]
    {
      var kwargs := FillCanonicalKwargs(codec, c);
      var entry := Entry(|calls| + 1, c.rpc, kwargs, ConfigFilter(c), Kept(fromDevice));
      calls := calls + [entry];
      o := fromDevice;
    }
  }

  // ----- Trimming a configuration -----

  function KeepNamed(children: seq<Xml>, keep: seq<string>): seq<Xml> {
    if children == [] then []
    else (if children[0].Element? && children[0].name !in keep then [] else [children[0]]) + KeepNamed(children[1..], keep)
  }

  /** Drops the top-level hierarchies outside `keep` from the first `configuration` element in
      document order; None when there is none. */
  function Trim(x: Xml, keep: seq<string>): Option<Xml>
    decreases x, 1
  {
    if x.Comment? then None
    else if x.name == "configuration" then Some(x.(children := KeepNamed(x.children, keep)))
    else
      var trimmed := TrimFirst(x.children, keep);
      if trimmed.Some? then Some(x.(children := trimmed.value)) else None
  }

  function TrimFirst(xs: seq<Xml>, keep: seq<string>): Option<seq<Xml>>
    decreases xs, 0
  {
    if xs == [] then None
    else
      var head := Trim(xs[0], keep);
      if head.Some? then Some([head.value] + xs[1..])
      else
        var rest := TrimFirst(xs[1..], keep);
        if rest.Some? then Some([xs[0]] + rest.value) else None
  }

  /** The first `configuration` element in document order. */
  function Root(x: Xml): Option<Xml>
    decreases x, 1
  {
    if x.Comment? then None else if x.name == "configuration" then Some(x) else RootOf(x.children)
  }

  function RootOf(xs: seq<Xml>): Option<Xml>
    decreases xs, 0
  {
    if xs == [] then None
    else
      var head := Root(xs[0]);
      if head.Some? then head else RootOf(xs[1..])
  }

  predicate HoldsOnly(x: Xml, keep: seq<string>) {
    Root(x).Some? && Root(x).value.Element? &&
    forall c | c in Root(x).value.children && c.Element? :: c.name in keep
  }

  lemma {:induction false} KeepNamedIsIdentity(children: seq<Xml>, keep: seq<string>)
    ensures |KeepNamed(children, keep)| <= |children|
    ensures KeepNamed(children, keep) == children <==> forall c | c in children && c.Element? :: c.name in keep
  {
    if children != [] {
      KeepNamedIsIdentity(children[1..], keep);
      var c := children[0];
      if c.Element? && c.name !in keep {
        assert c in children;
      } else {
        assert KeepNamed(children, keep) == [c] + KeepNamed(children[1..], keep);
        assert children == [c] + children[1..];
        assert KeepNamed(children, keep)[1..] == KeepNamed(children[1..], keep);
      }
    }
  }

  /** Trimming leaves a reply alone exactly when its configuration holds requested hierarchies
      only. */
  lemma {:induction false} TrimIsIdentity(x: Xml, keep: seq<string>)
    ensures Trim(x, keep) == Some(x) <==> HoldsOnly(x, keep)
    ensures Trim(x, keep).None? <==> Root(x).None?
    decreases x, 1
  {
    if x.Element? {
      if x.name == "configuration" {
        KeepNamedIsIdentity(x.children, keep);
      } else {
        TrimFirstIsIdentity(x.children, keep);
      }
    }
  }

  lemma {:induction false} TrimFirstIsIdentity(xs: seq<Xml>, keep: seq<string>)
    ensures TrimFirst(xs, keep) == Some(xs) <==>
            RootOf(xs).Some? && RootOf(xs).value.Element? &&
            forall c | c in RootOf(xs).value.children && c.Element? :: c.name in keep
    ensures TrimFirst(xs, keep).None? <==> RootOf(xs).None?
    decreases xs, 0
  {
    if xs != [] {
      TrimIsIdentity(xs[0], keep);
      TrimFirstIsIdentity(xs[1..], keep);
      assert xs == [xs[0]] + xs[1..];
      if TrimFirst(xs, keep).Some? {
        var r := TrimFirst(xs, keep).value;
        assert r == [r[0]] + r[1..];
      }
    }
  }

  // ----- Answering (raw/replay.py) -----

  function Entries(codec: Codec, log: seq<Entry>, key: string): seq<Entry> {
    if log == [] then []
    else
      var last := log[|log| - 1];
      Entries(codec, log[..|log| - 1], key) +
      if last.rpc != GET_CONFIG && codec.key(last.rpc, last.kwargs) == key then [last] else []
  }

  function Configs(log: seq<Entry>): seq<Entry> {
    if log == [] then []
    else Configs(log[..|log| - 1]) + if log[|log| - 1].rpc == GET_CONFIG then [log[|log| - 1]] else []
  }

  /** How often a key was asked for. */
  function Times(codec: Codec, past: seq<Call>, key: string): nat {
    if past == [] then 0
    else
      var last := past[|past| - 1];
      Times(codec, past[..|past| - 1], key) + if last.rpc != GET_CONFIG && KeyOf(codec, last) == key then 1 else 0
  }

  function ReplayConfig(required: set<string>, configs: seq<Entry>, requested: Option<seq<string>>): Outcome {
    if requested.None? || configs == [] then NotRecorded
    else
      var recorded := if configs[0].filter.Some? then configs[0].filter.value else [];
      if exists h | h in requested.value :: h in required && h !in recorded then NotRecorded
      else
        match configs[0].kept
        case Answer(Doc(xml)) =>
          var trimmed := Trim(xml, requested.value);
          if trimmed.Some? then Answer(Doc(trimmed.value)) else Untrimmable
        case Answer(_) => Untrimmable
        case e => e
  }

  /** The answer to a call after the calls of `past`: the k-th request for a key gets the k-th
      recorded outcome of that key, and the last one over and over once they run out. */
  function Replayed(codec: Codec, required: set<string>, log: seq<Entry>, past: seq<Call>, c: Call): Outcome {
    if c.rpc == GET_CONFIG then ReplayConfig(required, Configs(log), ConfigFilter(c))
    else
      var key := KeyOf(codec, c);
      var queue := Entries(codec, log, key);
      var index := Times(codec, past, key);
      if queue == [] then NotRecorded else queue[if index < |queue| then index else |queue| - 1].kept
  }

  /** The queues hold the entries of every key of the log, in order. */
  ghost predicate Indexed(codec: Codec, log: seq<Entry>, byKey: map<string, seq<Entry>>) {
    forall k :: (k in byKey <==> Entries(codec, log, k) != []) && (k in byKey ==> byKey[k] == Entries(codec, log, k))
  }

  ghost predicate Counted(codec: Codec, past: seq<Call>, keys: set<string>, served: map<string, nat>) {
    forall k | k in keys :: (if k in served then served[k] else 0) == Times(codec, past, k)
  }

  lemma CountedSnoc(codec: Codec, past: seq<Call>, c: Call, keys: set<string>, served: map<string, nat>)
    requires Counted(codec, past, keys, served)
    ensures c.rpc == GET_CONFIG || KeyOf(codec, c) !in keys ==> Counted(codec, past + [c], keys, served)
    ensures c.rpc != GET_CONFIG ==> var key := KeyOf(codec, c);
              Counted(codec, past + [c], keys, served[key := (if key in served then served[key] else 0) + 1])
  {}

  class Replayer {
    const codec: Codec
    const required: set<string>
    ghost const log: seq<Entry>
    ghost var past: seq<Call>
    var byKey: map<string, seq<Entry>>
    var configs: seq<Entry>
    var served: map<string, nat>

    ghost predicate Valid()
      reads this
    {
      configs == Configs(log) && Indexed(codec, log, byKey) && Counted(codec, past, byKey.Keys, served)
    }

    constructor (codec: Codec, required: set<string>, calls: seq<Entry>)
      ensures Valid() && this.codec == codec && this.required == required && log == calls && past == []
    {
      this.codec, this.required, this.log := codec, required, calls;
      past, served := [], map[];
      byKey, configs := map[], [];
      new;
      for i := 0 to |calls|
        invariant log == calls && this.codec == codec && past == [] && served == map[]
        invariant configs == Configs(calls[..i])
        invariant Indexed(codec, calls[..i], byKey)
      {
        assert calls[..i + 1][..i] == calls[..i];
        var call := calls[i];
        if call.rpc == GET_CONFIG {
          configs := configs + [call];
        } else {
          var key := codec.key(call.rpc, call.kwargs);
          byKey := byKey[key := (if key in byKey then byKey[key] else []) + [call]];
        }
      }
      assert calls[..|calls|] == calls;
    }

    method Answer(c: Call) returns (o: Outcome)
      requires Valid()
      modifies this
      ensures Valid() && past == old(past) + [c]
      ensures o == Replayed(codec, required, log, old(past), c)
    {
      CountedSnoc(codec, past, c, byKey.Keys, served);
      past := past + [c];
      if c.rpc == GET_CONFIG {
        o := ReplayConfig(required, configs, ConfigFilter(c));
        return;
      }
      var kwargs := FillCanonicalKwargs(codec, c);
      var key := codec.key(c.rpc, kwargs);
      if key !in byKey {
        return NotRecorded;
      }
      var index := if key in served then served[key] else 0;
      served := served[key := index + 1];
      var entries := byKey[key];
      o := entries[if index <= |entries| - 1 then index else |entries| - 1].kept;
    }
  }

  // ----- Sessions -----

  datatype Exchange = Exchange(call: Call, outcome: Outcome)

  function CallsOf(h: seq<Exchange>): seq<Call> {
    seq(|h|, i requires 0 <= i < |h| => h[i].call)
  }

  /** At most `n` exchanges of a client that picks each call from the history so far with a
      peer that answers from the history so far. */
  function Session(client: seq<Exchange> -> Option<Call>, peer: (seq<Exchange>, Call) -> Outcome, n: nat): seq<Exchange> {
    if n == 0 then []
    else
      var h := Session(client, peer, n - 1);
      match client(h)
      case None => h
      case Some(c) => h + [Exchange(c, peer(h, c))]
  }

  function Log(codec: Codec, h: seq<Exchange>): (log: seq<Entry>)
    ensures |log| == |h|
  {
    if h == [] then []
    else Log(codec, h[..|h| - 1]) + [EntryOf(codec, |h|, h[|h| - 1].call, h[|h| - 1].outcome)]
  }

  function Replaying(codec: Codec, required: set<string>, log: seq<Entry>): (seq<Exchange>, Call) -> Outcome {
    (h, c) => Replayed(codec, required, log, CallsOf(h), c)
  }

  /** Exchanges that survive recording, seen from the exchange alone: no stringified value, no
      nameless error class, and every get_config carries a filter that covers what came back. */
  predicate Survives(x: Exchange) {
    match x.outcome
    case Error(kind, _) => kind != "" && (x.call.rpc == GET_CONFIG ==> ConfigFilter(x.call).Some?)
    case Answer(Doc(xml)) => x.call.rpc == GET_CONFIG ==> ConfigFilter(x.call).Some? && HoldsOnly(xml, ConfigFilter(x.call).value)
    case Answer(reply) => reply.Scalar? && x.call.rpc != GET_CONFIG
    case _ => false
  }

  ghost predicate AtMostOneConfig(h: seq<Exchange>) {
    forall i, j | 0 <= i < j < |h| && h[i].call.rpc == GET_CONFIG :: h[j].call.rpc != GET_CONFIG
  }

  lemma LogPrefix(codec: Codec, h: seq<Exchange>)
    requires h != []
    ensures var n := |h| - 1; Log(codec, h)[..n] == Log(codec, h[..n]) && CallsOf(h)[..n] == CallsOf(h[..n])
  {}

  /** The queue grows by a logged exchange of its own key. */
  lemma EntriesStep(codec: Codec, h: seq<Exchange>, key: string)
    requires h != []
    ensures
      var n := |h| - 1;
      var x := h[n];
      Entries(codec, Log(codec, h), key) == Entries(codec, Log(codec, h[..n]), key) +
      if x.call.rpc != GET_CONFIG && KeyOf(codec, x.call) == key then [EntryOf(codec, |h|, x.call, x.outcome)] else []
  {}

  /** A key is queued as often as it was asked for. */
  lemma {:induction false} QueueLength(codec: Codec, h: seq<Exchange>, key: string)
    ensures |Entries(codec, Log(codec, h), key)| == Times(codec, CallsOf(h), key)
  {
    if h != [] {
      QueueLength(codec, h[..|h| - 1], key);
      EntriesStep(codec, h, key);
      LogPrefix(codec, h);
    }
  }

  ghost predicate QueuedAt(codec: Codec, h: seq<Exchange>, i: nat)
    requires i < |h|
  {
    var key := KeyOf(codec, h[i].call);
    var q, k := Entries(codec, Log(codec, h), key), Times(codec, CallsOf(h[..i]), key);
    k < |q| && q[k].kept == Kept(h[i].outcome)
  }

  lemma QueuedLast(codec: Codec, h: seq<Exchange>)
    requires h != [] && h[|h| - 1].call.rpc != GET_CONFIG
    ensures QueuedAt(codec, h, |h| - 1)
  {
    var n, key := |h| - 1, KeyOf(codec, h[|h| - 1].call);
    EntriesStep(codec, h, key);
    QueueLength(codec, h[..n], key);
  }

  lemma QueuedEarlier(codec: Codec, h: seq<Exchange>, i: nat)
    requires i < |h| - 1 && QueuedAt(codec, h[..|h| - 1], i)
    ensures QueuedAt(codec, h, i)
  {
    EntriesStep(codec, h, KeyOf(codec, h[i].call));
    assert h[..|h| - 1][..i] == h[..i];
  }

  /** The queue of a key, at the number of earlier requests for it, holds the exchange itself. */
  lemma {:induction false} QueueAt(codec: Codec, h: seq<Exchange>, i: nat)
    requires i < |h| && h[i].call.rpc != GET_CONFIG
    ensures QueuedAt(codec, h, i)
  {
    if i < |h| - 1 {
      QueueAt(codec, h[..|h| - 1], i);
      QueuedEarlier(codec, h, i);
    } else {
      QueuedLast(codec, h);
    }
  }

  lemma {:induction false} OnlyConfig(codec: Codec, h: seq<Exchange>, i: nat)
    requires AtMostOneConfig(h) && i < |h| && h[i].call.rpc == GET_CONFIG
    ensures Configs(Log(codec, h)) == [EntryOf(codec, i + 1, h[i].call, h[i].outcome)]
  {
    var n := |h| - 1;
    if i < n {
      OnlyConfig(codec, h[..n], i);
    } else {
      NoConfig(codec, h[..n]);
    }
    assert Log(codec, h)[..n] == Log(codec, h[..n]);
  }

  lemma {:induction false} NoConfig(codec: Codec, h: seq<Exchange>)
    requires forall i | 0 <= i < |h| :: h[i].call.rpc != GET_CONFIG
    ensures Configs(Log(codec, h)) == []
  {
    if h != [] {
      NoConfig(codec, h[..|h| - 1]);
      assert Log(codec, h)[..|h| - 1] == Log(codec, h[..|h| - 1]);
    }
  }

  lemma ConfigComesBack(required: set<string>, x: Exchange, e: Entry)
    requires x.call.rpc == GET_CONFIG && FromDevice(x.outcome)
    requires e.filter == ConfigFilter(x.call) && e.kept == Kept(x.outcome)
    ensures ReplayConfig(required, [e], ConfigFilter(x.call)) == x.outcome <==> Survives(x)
  {
    if x.outcome.Answer? && x.outcome.reply.Doc? && ConfigFilter(x.call).Some? {
      TrimIsIdentity(x.outcome.reply.xml, ConfigFilter(x.call).value);
    }
  }

  /** One exchange of a recorded session comes back unchanged exactly when it survives recording. */
  lemma ExchangeComesBack(codec: Codec, required: set<string>, h: seq<Exchange>, i: nat)
    requires AtMostOneConfig(h) && i < |h| && FromDevice(h[i].outcome)
    ensures Replayed(codec, required, Log(codec, h), CallsOf(h[..i]), h[i].call) == h[i].outcome <==> Survives(h[i])
  {
    if h[i].call.rpc == GET_CONFIG {
      OnlyConfig(codec, h, i);
      ConfigComesBack(required, h[i], EntryOf(codec, i + 1, h[i].call, h[i].outcome));
    } else {
      QueueAt(codec, h, i);
    }
  }

  lemma {:induction false} SessionShape(client: seq<Exchange> -> Option<Call>, peer: (seq<Exchange>, Call) -> Outcome, n: nat)
    ensures var h := Session(client, peer, n);
            |h| <= n && forall i | 0 <= i < |h| :: client(h[..i]) == Some(h[i].call) && h[i].outcome == peer(h[..i], h[i].call)
  {
    if n > 0 {
      SessionShape(client, peer, n - 1);
      var g, h := Session(client, peer, n - 1), Session(client, peer, n);
      assert forall i | 0 <= i < |g| :: h[..i] == g[..i];
      if h != g {
        assert h[..|g|] == g;
      }
    }
  }

  lemma {:induction false} SamePeerOnPath(client: seq<Exchange> -> Option<Call>, p: (seq<Exchange>, Call) -> Outcome,
                                          q: (seq<Exchange>, Call) -> Outcome, n: nat)
    requires var h := Session(client, p, n); forall i | 0 <= i < |h| :: q(h[..i], h[i].call) == h[i].outcome
    ensures Session(client, q, n) == Session(client, p, n)
  {
    if n > 0 {
      var g, h := Session(client, p, n - 1), Session(client, p, n);
      assert |g| <= |h| && h[..|g|] == g;
      forall i | 0 <= i < |g| ensures q(g[..i], g[i].call) == g[i].outcome {
        assert g[i] == h[..|g|][i] == h[i] && g[..i] == h[..|g|][..i] == h[..i];
      }
      SamePeerOnPath(client, p, q, n - 1);
    }
  }

  lemma ReplayingIs(codec: Codec, required: set<string>, log: seq<Entry>, h: seq<Exchange>, c: Call)
    ensures Replaying(codec, required, log)(h, c) == Replayed(codec, required, log, CallsOf(h), c)
  {}

  /** Main theorem.  Any deterministic client that sends at most one get_config sees its recorded
      session again, answer by answer, exactly when every exchange survives recording. */
  lemma ReplayIsFaithful(codec: Codec, required: set<string>, client: seq<Exchange> -> Option<Call>,
                         device: (seq<Exchange>, Call) -> Outcome, n: nat)
    requires AtMostOneConfig(Session(client, device, n))
    requires forall h, c :: FromDevice(device(h, c))
    ensures
      var h := Session(client, device, n);
      Session(client, Replaying(codec, required, Log(codec, h)), n) == h <==> forall i | 0 <= i < |h| :: Survives(h[i])
  {
    var h := Session(client, device, n);
    var again := Replaying(codec, required, Log(codec, h));
    SessionShape(client, device, n);
    SessionShape(client, again, n);
    forall i | 0 <= i < |h| ensures again(h[..i], h[i].call) == h[i].outcome <==> Survives(h[i]) {
      ExchangeComesBack(codec, required, h, i);
      ReplayingIs(codec, required, Log(codec, h), h[..i], h[i].call);
    }
    if forall i | 0 <= i < |h| :: Survives(h[i]) {
      SamePeerOnPath(client, device, again, n);
    }
  }

  // ----- What a replay never invents, and what it does not depend on -----

  lemma {:induction false} EntriesOf(codec: Codec, log: seq<Entry>, key: string)
    ensures Entries(codec, log, key) == [] <==> forall e | e in log :: e.rpc == GET_CONFIG || codec.key(e.rpc, e.kwargs) != key
    ensures forall e | e in Entries(codec, log, key) :: e in log
  {
    if log != [] {
      EntriesOf(codec, log[..|log| - 1], key);
      assert log == log[..|log| - 1] + [log[|log| - 1]];
    }
  }

  /** A call is refused exactly when no recorded call has its key, and otherwise answered with one
      recorded under that key. */
  lemma UnrecordedIsRefused(codec: Codec, required: set<string>, log: seq<Entry>, past: seq<Call>, c: Call)
    requires c.rpc != GET_CONFIG && forall e | e in log :: FromDevice(e.kept)
    ensures Replayed(codec, required, log, past, c) == NotRecorded <==>
            forall e | e in log :: e.rpc == GET_CONFIG || codec.key(e.rpc, e.kwargs) != KeyOf(codec, c)
    ensures Replayed(codec, required, log, past, c) != NotRecorded ==>
            exists e | e in log :: e.kept == Replayed(codec, required, log, past, c)
  {
    EntriesOf(codec, log, KeyOf(codec, c));
  }

  lemma {:induction false} TimesConcat(codec: Codec, a: seq<Call>, b: seq<Call>, key: string)
    ensures Times(codec, a + b, key) == Times(codec, a, key) + Times(codec, b, key)
  {
    if b == [] {
      assert a + b == a;
    } else {
      assert (a + b)[..|a + b| - 1] == a + b[..|b| - 1];
      TimesConcat(codec, a, b[..|b| - 1], key);
    }
  }

  /** Requests for other keys, and get_configs, may be slipped in anywhere without changing the
      answer. */
  lemma InterleavingIsIrrelevant(codec: Codec, required: set<string>, log: seq<Entry>,
                                 a: seq<Call>, noise: seq<Call>, b: seq<Call>, c: Call)
    requires forall x | x in noise :: x.rpc == GET_CONFIG || KeyOf(codec, x) != KeyOf(codec, c)
    ensures Replayed(codec, required, log, a + noise + b, c) == Replayed(codec, required, log, a + b, c)
  {
    var key := KeyOf(codec, c);
    TimesConcat(codec, a + noise, b, key);
    TimesConcat(codec, a, noise, key);
    TimesConcat(codec, a, b, key);
    NoiseCountsNothing(codec, noise, key);
  }

  lemma {:induction false} NoiseCountsNothing(codec: Codec, noise: seq<Call>, key: string)
    requires forall x | x in noise :: x.rpc == GET_CONFIG || KeyOf(codec, x) != key
    ensures Times(codec, noise, key) == 0
  {
    if noise != [] {
      NoiseCountsNothing(codec, noise[..|noise| - 1], key);
    }
  }
}
