/** What a replay answers to any call whatsoever (raw/replay.py), told from the recording, the calls
before and the call itself. */
module ReplayAnswers {
  import opened Wrappers
  import opened Seqs
  import opened Replay

  // ----- Configurations -----

  /** The call carries a filter element. */
  predicate Filtered(c: Call) {
    "filter_xml" in c.kwargs && c.kwargs["filter_xml"].Tree? && c.kwargs["filter_xml"].xml.Element?
  }

  /** One of the filter's top-level elements has this name. */
  predicate AsksFor(c: Call, name: string) {
    Filtered(c) && exists x | x in c.kwargs["filter_xml"].xml.children :: x.Element? && x.name == name
  }

  lemma {:induction false} NamesAre(children: seq<Xml>)
    ensures forall n :: n in Names(children) <==> exists x | x in children :: x.Element? && x.name == n
  {
    if children != [] {
      NamesAre(children[1..]);
      assert children == [children[0]] + children[1..];
    }
  }

  lemma FilterIs(c: Call)
    requires c.rpc == "get_config"
    ensures ConfigFilter(c).Some? <==> Filtered(c)
    ensures ConfigFilter(c).Some? ==> forall n :: n in ConfigFilter(c).value <==> AsksFor(c, n)
  {
    if Filtered(c) {
      NamesAre(c.kwargs["filter_xml"].xml.children);
    }
  }

  predicate FirstConfig(log: seq<Entry>, i: int) {
    0 <= i < |log| && log[i].rpc == "get_config" && forall j | 0 <= j < i :: log[j].rpc != "get_config"
  }

  lemma {:induction false} NoConfigs(log: seq<Entry>)
    requires forall i | 0 <= i < |log| :: log[i].rpc != "get_config"
    ensures Configs(log) == []
  {
    if log != [] {
      NoConfigs(log[..|log| - 1]);
    }
  }

  lemma {:induction false} ConfigsBegin(log: seq<Entry>, i: nat)
    requires FirstConfig(log, i)
    ensures Configs(log) != [] && Configs(log)[0] == log[i]
  {
    var n := |log| - 1;
    if i < n {
      ConfigsBegin(log[..n], i);
    } else {
      NoConfigs(log[..n]);
    }
  }

  lemma {:induction false} FindFirstConfig(log: seq<Entry>) returns (i: Option<nat>)
    ensures i.Some? ==> FirstConfig(log, i.value)
    ensures i.None? ==> Configs(log) == [] && forall e | e in log :: e.rpc != "get_config"
  {
    i := None;
    if log != [] {
      var n := |log| - 1;
      i := FindFirstConfig(log[..n]);
      assert log == log[..n] + [log[n]];
      if i.None? && log[n].rpc == "get_config" {
        assert forall j | 0 <= j < n :: log[j] in log[..n];
        i := Some(n);
      }
    }
  }

  /** The recording lacks a hierarchy that is asked for and required. */
  predicate Lacks(required: set<string>, e: Entry, c: Call) {
    exists h | h in required :: AsksFor(c, h) && !(e.filter.Some? && h in e.filter.value)
  }

  lemma LacksIs(required: set<string>, e: Entry, c: Call)
    requires c.rpc == "get_config" && Filtered(c)
    ensures Lacks(required, e, c) <==>
            exists h | h in ConfigFilter(c).value :: h in required && h !in if e.filter.Some? then e.filter.value else []
  {
    FilterIs(c);
  }

  lemma RefusedByFirst(codec: Codec, required: set<string>, log: seq<Entry>, past: seq<Call>, c: Call, i: nat)
    requires c.rpc == "get_config" && Filtered(c) && FirstConfig(log, i) && FromDevice(log[i].kept)
    ensures Replayed(codec, required, log, past, c) == NotRecorded <==> Lacks(required, log[i], c)
  {
    FilterIs(c);
    ConfigsBegin(log, i);
    LacksIs(required, log[i], c);
  }

  /** Main theorem on configurations: a get_config is refused exactly when it has no filter, or none was
      recorded, or the first recorded one lacks a required hierarchy that is asked for. */
  lemma ConfigRefusedExactly(codec: Codec, required: set<string>, log: seq<Entry>, past: seq<Call>, c: Call)
    requires c.rpc == "get_config" && forall e | e in log :: FromDevice(e.kept)
    ensures Replayed(codec, required, log, past, c) == NotRecorded <==>
            || !Filtered(c)
            || (forall e | e in log :: e.rpc != "get_config")
            || exists i :: FirstConfig(log, i) && Lacks(required, log[i], c)
  {
    FilterIs(c);
    var first := FindFirstConfig(log);
    if first.Some? {
      var i := first.value;
      assert log[i] in log && forall j | FirstConfig(log, j) :: j == i;
      if Filtered(c) {
        RefusedByFirst(codec, required, log, past, c, i);
      }
    }
  }

  // ----- What is left of a document -----

  predicate HasConfiguration(x: Xml) {
    x.Element? && (x.name == "configuration" || exists c | c in x.children :: HasConfiguration(c))
  }

  /** `y` is `x` with its first configuration element, in document order, cut down to the comments and
      the elements that `c` asks for. */
  ghost predicate CutDown(x: Xml, y: Xml, c: Call)
    decreases x
  {
    && x.Element? && y.Element? && y.name == x.name && y.text == x.text
    && if x.name == "configuration" then y.children == Filter(x.children, (d: Xml) => d.Comment? || AsksFor(c, d.name))
       else exists i :: CutChild(x, y, c, i)
  }

  ghost predicate CutChild(x: Xml, y: Xml, c: Call, i: int)
    requires x.Element? && y.Element?
    decreases x, 0
  {
    && |x.children| == |y.children| && 0 <= i < |x.children|
    && CutDown(x.children[i], y.children[i], c)
    && (forall j | 0 <= j < i :: !HasConfiguration(x.children[j]))
    && (forall j | 0 <= j < |x.children| && j != i :: y.children[j] == x.children[j])
  }

  lemma FilterHead(s: seq<Xml>, p: Xml -> bool)
    requires s != []
    ensures Filter(s, p) == (if p(s[0]) then [s[0]] else []) + Filter(s[1..], p)
  {
    FilterConcat([s[0]], s[1..], p);
    assert s == [s[0]] + s[1..] && [s[0]][..0] == [];
  }

  lemma {:induction false} KeepNamedIsFilter(children: seq<Xml>, keep: seq<string>, c: Call)
    requires forall n :: n in keep <==> AsksFor(c, n)
    ensures KeepNamed(children, keep) == Filter(children, (d: Xml) => d.Comment? || AsksFor(c, d.name))
  {
    if children != [] {
      var p := (d: Xml) => d.Comment? || AsksFor(c, d.name);
      KeepNamedIsFilter(children[1..], keep, c);
      FilterHead(children, p);
    }
  }

  lemma {:induction false} TrimCutsDown(x: Xml, keep: seq<string>, c: Call)
    requires forall n :: n in keep <==> AsksFor(c, n)
    ensures Trim(x, keep).Some? <==> HasConfiguration(x)
    ensures Trim(x, keep).Some? ==> CutDown(x, Trim(x, keep).value, c)
    decreases x, 1
  {
    if x.Element? {
      if x.name == "configuration" {
        KeepNamedIsFilter(x.children, keep, c);
      } else {
        var i := TrimFirstCutsDown(x.children, keep, c);
        if TrimFirst(x.children, keep).Some? {
          assert CutChild(x, Trim(x, keep).value, c, i);
        }
      }
    }
  }

  lemma {:induction false} TrimFirstCutsDown(xs: seq<Xml>, keep: seq<string>, c: Call) returns (i: nat)
    requires forall n :: n in keep <==> AsksFor(c, n)
    ensures TrimFirst(xs, keep).Some? <==> exists x | x in xs :: HasConfiguration(x)
    ensures TrimFirst(xs, keep).Some? ==>
              var ys := TrimFirst(xs, keep).value;
              && |xs| == |ys| && i < |xs| && CutDown(xs[i], ys[i], c)
              && (forall j | 0 <= j < i :: !HasConfiguration(xs[j]))
              && (forall j | 0 <= j < |xs| && j != i :: ys[j] == xs[j])
    decreases xs, 0
  {
    i := 0;
    if xs != [] {
      TrimCutsDown(xs[0], keep, c);
      assert xs == [xs[0]] + xs[1..];
      if Trim(xs[0], keep).None? {
        var k := TrimFirstCutsDown(xs[1..], keep, c);
        i := k + 1;
      }
    }
  }

  /** And otherwise it gets what the first recorded one got, cut down to what is asked for; a recorded
      reply without a configuration cannot be cut. */
  lemma ConfigAnswerIs(codec: Codec, required: set<string>, log: seq<Entry>, past: seq<Call>, c: Call, i: nat)
    requires c.rpc == "get_config" && Filtered(c) && FirstConfig(log, i) && !Lacks(required, log[i], c)
    ensures
      var o := Replayed(codec, required, log, past, c);
      match log[i].kept
      case Answer(Doc(x)) =>
        if HasConfiguration(x) then o.Answer? && o.reply.Doc? && CutDown(x, o.reply.xml, c) else o == Untrimmable
      case Answer(_) => o == Untrimmable
      case other => o == other
  {
    FilterIs(c);
    ConfigsBegin(log, i);
    LacksIs(required, log[i], c);
    if log[i].kept.Answer? && log[i].kept.reply.Doc? {
      TrimCutsDown(log[i].kept.reply.xml, ConfigFilter(c).value, c);
    }
  }

  // ----- Other calls -----

  predicate Under(codec: Codec, e: Entry, key: string) {
    e.rpc != "get_config" && codec.key(e.rpc, e.kwargs) == key
  }

  /** The entries recorded under a key. */
  function EntriesUnder(codec: Codec, log: seq<Entry>, key: string): set<nat> {
    set j: nat | j < |log| && Under(codec, log[j], key)
  }

  predicate Asks(codec: Codec, c: Call, key: string) {
    c.rpc != "get_config" && KeyOf(codec, c) == key
  }

  /** The requests for it. */
  function RequestsFor(codec: Codec, past: seq<Call>, key: string): set<nat> {
    set j: nat | j < |past| && Asks(codec, past[j], key)
  }

  lemma RequestsSnoc(codec: Codec, past: seq<Call>, key: string)
    requires past != []
    ensures var n := |past| - 1;
            |RequestsFor(codec, past, key)| == |RequestsFor(codec, past[..n], key)| + if Asks(codec, past[n], key) then 1 else 0
  {
    var before, n := past[..|past| - 1], |past| - 1;
    var all, some := RequestsFor(codec, past, key), RequestsFor(codec, before, key);
    forall j: nat ensures j in all <==> j in some || (j == n && Asks(codec, past[n], key)) {
      assert j < n ==> before[j] == past[j];
    }
    assert all == some + if Asks(codec, past[n], key) then {n} else {};
  }

  lemma {:induction false} TimesIs(codec: Codec, past: seq<Call>, key: string)
    ensures Times(codec, past, key) == |RequestsFor(codec, past, key)|
  {
    if past != [] {
      TimesIs(codec, past[..|past| - 1], key);
      RequestsSnoc(codec, past, key);
    }
  }

  lemma EntriesSnoc(codec: Codec, log: seq<Entry>, key: string)
    requires log != []
    ensures var n := |log| - 1;
            |EntriesUnder(codec, log, key)| == |EntriesUnder(codec, log[..n], key)| + if Under(codec, log[n], key) then 1 else 0
  {
    var before, n := log[..|log| - 1], |log| - 1;
    var all, some := EntriesUnder(codec, log, key), EntriesUnder(codec, before, key);
    forall j: nat ensures j in all <==> j in some || (j == n && Under(codec, log[n], key)) {
      assert j < n ==> before[j] == log[j];
    }
    assert all == some + if Under(codec, log[n], key) then {n} else {};
  }

  lemma {:induction false} EntryCount(codec: Codec, log: seq<Entry>, key: string)
    ensures |Entries(codec, log, key)| == |EntriesUnder(codec, log, key)|
  {
    if log != [] {
      EntryCount(codec, log[..|log| - 1], key);
      EntriesSnoc(codec, log, key);
    }
  }

  lemma {:induction false} EntryAt(codec: Codec, log: seq<Entry>, key: string, i: nat)
    requires i < |log| && Under(codec, log[i], key)
    ensures var q, k := Entries(codec, log, key), |EntriesUnder(codec, log[..i], key)|; k < |q| && q[k] == log[i]
  {
    var n := |log| - 1;
    if i < n {
      EntryAt(codec, log[..n], key, i);
      assert log[..n][..i] == log[..i];
    } else {
      EntryCount(codec, log[..n], key);
    }
  }

  lemma {:induction false} NoneAfter(codec: Codec, log: seq<Entry>, key: string, i: nat)
    requires i < |log| && Under(codec, log[i], key) && forall j | i < j < |log| :: !Under(codec, log[j], key)
    ensures |Entries(codec, log, key)| == |EntriesUnder(codec, log[..i], key)| + 1
  {
    var n := |log| - 1;
    if i < n {
      NoneAfter(codec, log[..n], key, i);
      assert log[..n][..i] == log[..i];
    } else {
      EntryCount(codec, log[..n], key);
    }
  }

  /** Main theorem on other calls: the k-th request for a key gets the k-th outcome recorded under it,
      and every request beyond them the last. */
  lemma KthRequestGetsKthOutcome(codec: Codec, required: set<string>, log: seq<Entry>, past: seq<Call>, c: Call, i: nat)
    requires c.rpc != "get_config" && i < |log| && Under(codec, log[i], KeyOf(codec, c))
    requires
      var asked, earlier := |RequestsFor(codec, past, KeyOf(codec, c))|, |EntriesUnder(codec, log[..i], KeyOf(codec, c))|;
      asked == earlier || (asked > earlier && forall j | i < j < |log| :: !Under(codec, log[j], KeyOf(codec, c)))
    ensures Replayed(codec, required, log, past, c) == log[i].kept
  {
    var key := KeyOf(codec, c);
    TimesIs(codec, past, key);
    EntryAt(codec, log, key, i);
    if |RequestsFor(codec, past, key)| > |EntriesUnder(codec, log[..i], key)| {
      NoneAfter(codec, log, key, i);
    }
  }

  // ----- Which calls share a key -----

  predicate SameArg(codec: Codec, a: Arg, b: Arg) {
    match (a, b)
    case (Plain(v), Plain(w)) => v == w
    case (Tree(x), Tree(y)) => codec.text(x) == codec.text(y)
    case (Tree(x), Plain(w)) => w == Str(codec.text(x))
    case (Plain(v), Tree(y)) => v == Str(codec.text(y))
  }

  /** Calls have the same name and canonical arguments, which their keys are made of, exactly when they
      have the same name and the same arguments, elements counting as their text. */
  lemma SameKeyExactly(codec: Codec, a: Call, b: Call)
    requires a.rpc != "get_config" && b.rpc != "get_config"
    ensures CanonicalKwargs(codec, a) == CanonicalKwargs(codec, b) <==>
            a.kwargs.Keys == b.kwargs.Keys && forall k | k in a.kwargs :: SameArg(codec, a.kwargs[k], b.kwargs[k])
    ensures a.rpc == b.rpc && CanonicalKwargs(codec, a) == CanonicalKwargs(codec, b) ==> KeyOf(codec, a) == KeyOf(codec, b)
  {
    var x, y := CanonicalKwargs(codec, a), CanonicalKwargs(codec, b);
    assert x.Keys == a.kwargs.Keys && y.Keys == b.kwargs.Keys;
    if a.kwargs.Keys == b.kwargs.Keys {
      forall k | k in a.kwargs ensures x[k] == y[k] <==> SameArg(codec, a.kwargs[k], b.kwargs[k]) {}
    }
  }

  /** What comes back for a call other than a get_config that the session had made: its outcome, a value
      that is no JSON scalar as its text, and a nameless error as an RpcError. */
  lemma WhatComesBack(codec: Codec, required: set<string>, h: seq<Exchange>, i: nat)
    requires i < |h| && h[i].call.rpc != "get_config" && FromDevice(h[i].outcome)
    ensures Replayed(codec, required, Log(codec, h), CallsOf(h[..i]), h[i].call) ==
            match h[i].outcome
            case Answer(Opaque(text)) => Answer(Scalar(Str(text)))
            case Error(kind, message) => Error(if kind == "" then "RpcError" else kind, message)
            case o => o
  {
    QueueAt(codec, h, i);
  }
}
