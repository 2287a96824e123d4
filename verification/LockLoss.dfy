/** Which locked pairings of a run can be lost by a later update of its mapping (api.py), and when. */
module LockLoss {
  import opened Wrappers
  import opened Seqs
  import opened Manifest

  /** Both boxes of a run are known, and `ends` does not lie between them. */
  ghost predicate Elsewhere(m: Manifest, ends: (Place, Place)) {
    exists o, n :: Between(m, o, n) && (ends.0.0, ends.1.0) != (o, n)
  }

  predicate UpdateGoesThrough(m: Manifest, e: Event) {
    e.Update? && Updated(m, e.pairs).Some?
  }

  predicate PairsThese(m: Manifest, e: Event, ends: (Place, Place)) {
    e.Pair? && Added(m.mappings, e.from, e.to).Some? && ends == (PlaceOf(e.from), PlaceOf(e.to))
  }

  // ----- When a pairing of another node is there -----

  /** Which events were updates that went through. */
  ghost function Updates(m: Manifest, events: seq<Event>): (r: seq<bool>)
    ensures |r| == |events|
  {
    if events == [] then []
    else
      var before := events[..|events| - 1];
      Updates(m, before) + [UpdateGoesThrough(Exec(m, before), events[|events| - 1])]
  }

  predicate NoneFrom(bits: seq<bool>, k: nat) {
    forall j | k <= j < |bits| :: !bits[j]
  }

  ghost predicate NoUpdateSince(m: Manifest, events: seq<Event>, k: nat) {
    NoneFrom(Updates(m, events), k)
  }

  /** The pairing was made by event k and no update went through after it. */
  ghost predicate MadeAndKept(m: Manifest, events: seq<Event>, k: int, ends: (Place, Place)) {
    0 <= k < |events| && PairsThese(Exec(m, events[..k]), events[k], ends) && NoUpdateSince(m, events, k + 1)
  }

  /** One event: it is there after an accepted pairing of these ends, and gone after any update. */
  lemma OneEvent(m: Manifest, e: Event, ends: (Place, Place))
    requires Elsewhere(m, ends)
    ensures Has(Apply(m, e).mappings, ends) <==>
            PairsThese(m, e, ends) || (Has(m.mappings, ends) && !UpdateGoesThrough(m, e))
  {
    var o, n :| Between(m, o, n) && (ends.0.0, ends.1.0) != (o, n);
    match e {
      case Capture(_, _, _, _) =>
      case Pair(from, to) => AddedIsInsertion(m.mappings, from, to);
      case Update(pairs) => UpdateAndLocks(m, pairs);
    }
  }

  lemma StaysElsewhere(m: Manifest, events: seq<Event>, ends: (Place, Place))
    requires Elsewhere(m, ends)
    ensures Elsewhere(Exec(m, events), ends)
  {
    var o, n :| Between(m, o, n) && (ends.0.0, ends.1.0) != (o, n);
    RunKeepsBetween(m, events, o, n);
  }

  /** An event is such an update in the state that the events before it led to. */
  lemma {:induction false} UpdatesAre(m: Manifest, events: seq<Event>, j: nat)
    requires j < |events|
    ensures Updates(m, events)[j] <==> UpdateGoesThrough(Exec(m, events[..j]), events[j])
  {
    var before := events[..|events| - 1];
    if j < |before| {
      UpdatesAre(m, before, j);
      assert before[..j] == events[..j] && before[j] == events[j];
      assert Updates(m, events)[..|before|] == Updates(m, before);
    }
  }

  lemma NoUpdateSnoc(m: Manifest, events: seq<Event>, k: nat)
    requires events != [] && k < |events|
    ensures
      var before := events[..|events| - 1];
      NoUpdateSince(m, events, k) <==>
      NoUpdateSince(m, before, k) && !UpdateGoesThrough(Exec(m, before), events[|events| - 1])
  {
    var before, goes := events[..|events| - 1], UpdateGoesThrough(Exec(m, events[..|events| - 1]), events[|events| - 1]);
    NoneSnoc(Updates(m, before), goes, k);
  }

  lemma NoneSnoc(bits: seq<bool>, last: bool, k: nat)
    requires k <= |bits|
    ensures NoneFrom(bits + [last], k) <==> NoneFrom(bits, k) && !last
  {
    var all := bits + [last];
    assert all[|bits|] == last && forall j | 0 <= j < |bits| :: all[j] == bits[j];
  }

  lemma MadeSnoc(m: Manifest, events: seq<Event>, k: nat, ends: (Place, Place))
    requires k + 1 < |events|
    ensures
      var before := events[..|events| - 1];
      MadeAndKept(m, events, k, ends) <==>
      MadeAndKept(m, before, k, ends) && !UpdateGoesThrough(Exec(m, before), events[|events| - 1])
  {
    assert events[..|events| - 1][..k] == events[..k];
    NoUpdateSnoc(m, events, k + 1);
  }

  /** Main theorem on runs: a pairing that does not lie between the two boxes is there if and only if
      it was made, or there at first, and no update went through since.  Locks play no part. */
  lemma {:induction false} ThereUntilUpdated(m: Manifest, events: seq<Event>, ends: (Place, Place))
    requires Elsewhere(m, ends)
    ensures Has(Exec(m, events).mappings, ends) <==>
            (Has(m.mappings, ends) && NoUpdateSince(m, events, 0)) || exists k :: MadeAndKept(m, events, k, ends)
  {
    if events != [] {
      var before, e := events[..|events| - 1], events[|events| - 1];
      ThereUntilUpdated(m, before, ends);
      StaysElsewhere(m, before, ends);
      OneEvent(Exec(m, before), e, ends);
      NoUpdateSnoc(m, events, 0);
      LastOrBefore(m, events, ends);
    }
  }

  lemma LastOrBefore(m: Manifest, events: seq<Event>, ends: (Place, Place))
    requires events != []
    ensures
      var before, e := events[..|events| - 1], events[|events| - 1];
      (exists k :: MadeAndKept(m, events, k, ends)) <==>
      || PairsThese(Exec(m, before), e, ends)
      || ((exists k :: MadeAndKept(m, before, k, ends)) && !UpdateGoesThrough(Exec(m, before), e))
  {
    var before, e := events[..|events| - 1], events[|events| - 1];
    if k :| MadeAndKept(m, events, k, ends) {
      MadeForward(m, events, k, ends);
    }
    if PairsThese(Exec(m, before), e, ends) {
      MadeLast(m, events, ends);
    }
    if !UpdateGoesThrough(Exec(m, before), e) {
      if k :| MadeAndKept(m, before, k, ends) {
        MadeBackward(m, events, k, ends);
      }
    }
  }

  lemma MadeForward(m: Manifest, events: seq<Event>, k: int, ends: (Place, Place))
    requires events != [] && MadeAndKept(m, events, k, ends)
    ensures
      var before, e := events[..|events| - 1], events[|events| - 1];
      PairsThese(Exec(m, before), e, ends) || (MadeAndKept(m, before, k, ends) && !UpdateGoesThrough(Exec(m, before), e))
  {
    if k == |events| - 1 {
      MadeLast(m, events, ends);
    } else {
      MadeSnoc(m, events, k, ends);
    }
  }

  lemma MadeBackward(m: Manifest, events: seq<Event>, k: int, ends: (Place, Place))
    requires events != [] && MadeAndKept(m, events[..|events| - 1], k, ends)
    requires !UpdateGoesThrough(Exec(m, events[..|events| - 1]), events[|events| - 1])
    ensures MadeAndKept(m, events, k, ends)
  {
    MadeSnoc(m, events, k, ends);
  }

  lemma MadeLast(m: Manifest, events: seq<Event>, ends: (Place, Place))
    requires events != []
    ensures MadeAndKept(m, events, |events| - 1, ends) <==>
            PairsThese(Exec(m, events[..|events| - 1]), events[|events| - 1], ends)
  {}

  // ----- Which locked pairings can be lost -----

  function LockedPairings(m: Manifest): seq<Mapping> {
    Filter(m.mappings, (x: Mapping) => Locked(m.captures, x))
  }

  /** The pairs that an update has to contain. */
  function LockedPorts(m: Manifest): seq<(string, string)> {
    Map(LockedPairings(m), (x: Mapping) => Ports(x))
  }

  lemma LockedPortsAre(m: Manifest)
    ensures forall x | x in m.mappings && Locked(m.captures, x) :: Ports(x) in LockedPorts(m)
    ensures forall p | p in LockedPorts(m) :: exists x | x in m.mappings && Locked(m.captures, x) :: Ports(x) == p
  {
    FilterMembers(m.mappings, (x: Mapping) => Locked(m.captures, x));
  }

  /** With locked pairings that give one old port two new ones, no update goes through any more. */
  ghost predicate Stuck(m: Manifest) {
    !Consistent(LockedPorts(m))
  }

  lemma StuckRefuses(m: Manifest, pairs: seq<(string, string)>)
    requires Stuck(m) && m.kind.Migration? && |NodesWith(m.devices, Old)| == |NodesWith(m.devices, New)| == 1
    ensures Updated(m, pairs).None?
  {
    LockedPortsAre(m);
    UpdateAndLocks(m, pairs);
    var p, q :| p in LockedPorts(m) && q in LockedPorts(m) && p.0 == q.0 && p.1 != q.1;
    assert p in pairs && q in pairs ==> !Consistent(pairs);
  }

  /** Apart from an update, an event keeps pairings and their locks. */
  lemma KeepsLocked(m: Manifest, e: Event, x: Mapping)
    requires x in m.mappings && !UpdateGoesThrough(m, e)
    ensures x in Apply(m, e).mappings
    ensures Locked(m.captures, x) ==> Locked(Apply(m, e).captures, x)
  {
    if Locked(m.captures, x) && Apply(m, e) != m {
      ReloadKeepsLocks(m.captures, x);
      if e.Capture? {
        PutKeepsLocks(m.captures, e.record, x);
        ReloadKeepsLocks(Put(m.captures, e.record), x);
      }
    }
  }

  lemma StuckStays(m: Manifest, e: Event)
    requires Stuck(m) && !UpdateGoesThrough(m, e)
    ensures Stuck(Apply(m, e))
  {
    LockedPortsAre(m);
    LockedPortsAre(Apply(m, e));
    var p, q :| p in LockedPorts(m) && q in LockedPorts(m) && p.0 == q.0 && p.1 != q.1;
    var x :| x in m.mappings && Locked(m.captures, x) && Ports(x) == p;
    var y :| y in m.mappings && Locked(m.captures, y) && Ports(y) == q;
    KeepsLocked(m, e, x);
    KeepsLocked(m, e, y);
  }

  lemma {:induction false} StuckForever(m: Manifest, events: seq<Event>, o: string, n: string)
    requires Between(m, o, n) && Stuck(m)
    ensures Stuck(Exec(m, events)) && forall x | x in m.mappings :: x in Exec(m, events).mappings
  {
    if events != [] {
      var before, e := events[..|events| - 1], events[|events| - 1];
      StuckForever(m, before, o, n);
      RunKeepsBetween(m, before, o, n);
      var s := Exec(m, before);
      if e.Update? {
        StuckRefuses(s, e.pairs);
      }
      StuckStays(s, e);
      forall x | x in s.mappings {
        KeepsLocked(s, e, x);
      }
    }
  }

  /** The update that keeps every pairing of the two boxes and loses the others. */
  lemma UpdateLoses(m: Manifest, ends: (Place, Place))
    requires Elsewhere(m, ends) && !Stuck(m)
    ensures !Has(Exec(m, [Update(LockedPorts(m))]).mappings, ends)
  {
    var e := Update(LockedPorts(m));
    LockedPortsAre(m);
    UpdateAndLocks(m, LockedPorts(m));
    OneEvent(m, e, ends);
    assert [e][..0] == [] && Exec(m, [e]) == Apply(m, e);
  }

  /** Main theorem on locks: in any state of a created run a locked pairing can be lost later on if
      and only if it does not lie between the two boxes and the locked ports are consistent. */
  lemma CanBeLostExactly(m: Manifest, pairs: seq<(string, string)>, before: seq<Event>, ends: (Place, Place))
    requires Created(m, pairs) && LockedIn(Exec(m, before), ends)
    ensures
      var o, n := NodesWith(m.devices, Old)[0], NodesWith(m.devices, New)[0];
      (exists after :: !Has(Exec(m, before + after).mappings, ends)) <==>
      (ends.0.0, ends.1.0) != (o, n) && Consistent(LockedPorts(Exec(m, before)))
  {
    var o, n := NodesWith(m.devices, Old)[0], NodesWith(m.devices, New)[0];
    var s := Exec(m, before);
    CreatedBetween(m, pairs);
    RunKeepsBetween(m, before, o, n);
    if (ends.0.0, ends.1.0) == (o, n) {
      forall after ensures Has(Exec(m, before + after).mappings, ends) {
        LockedPairingStays(m, pairs, before, after, ends);
      }
    } else if Stuck(s) {
      forall after ensures Has(Exec(m, before + after).mappings, ends) {
        StuckForever(s, after, o, n);
        ExecConcat(m, before, after);
      }
    } else {
      UpdateLoses(s, ends);
      ExecConcat(m, before, [Update(LockedPorts(s))]);
    }
  }

  lemma CreatedBetween(m: Manifest, pairs: seq<(string, string)>)
    requires Created(m, pairs)
    ensures Between(m, NodesWith(m.devices, Old)[0], NodesWith(m.devices, New)[0])
  {
    RebuiltHolds(NodesWith(m.devices, Old)[0], NodesWith(m.devices, New)[0], pairs);
  }

  // ----- Such a run exists -----

  /** Pair a port of a third box with a new port, capture the new port, update the mapping. */
  function LosingRun(third: string, new': string, p: string, q: string, r: Record): seq<Event> {
    [Pair(Endpoint(third, p, None), Endpoint(new', q, None)), Capture(r, New, "", ""), Update([(p, q)])]
  }

  lemma PairedAndLocked(m: Manifest, o: string, n: string, from: Endpoint, to: Endpoint, r: Record)
    requires Created(m, []) && Between(m, o, n)
    requires r.device == to.node == n && r.port == Some(to.port) && to.port != "all"
    ensures
      var s := Apply(Apply(m, Pair(from, to)), Capture(r, New, "", ""));
      s.mappings == [Mapping(from, to)] && s.captures == [r]
  {
    var s := Apply(m, Pair(from, to));
    assert m.mappings == [] && s == m.(mappings := [Mapping(from, to)]);
    NodeKnown(m.devices, New);
    assert n in NodesWith(m.devices, New) && Put([], r) == [r];
  }

  lemma OnePairGoes(m: Manifest, o: string, n: string, x: Mapping, r: Record)
    requires Between(m, o, n) && m.mappings == [x] && m.captures == [r] && (x.from.node, x.to.node) != (o, n)
    requires r.device == x.to.node && r.port == Some(x.to.port)
    ensures LockedIn(m, Ends(x)) && !Has(Apply(m, Update([Ports(x)])).mappings, Ends(x))
  {
    assert x in m.mappings && r in m.captures && Locks(r, x);
    UpdateAndLocks(m, [Ports(x)]);
    OneEvent(m, Update([Ports(x)]), Ends(x));
  }

  /** For every run created without pairs: locked before the update, gone after it. */
  lemma LosingRunLoses(m: Manifest, o: string, n: string, third: string, p: string, q: string, r: Record)
    requires Created(m, []) && Between(m, o, n) && third != o
    requires r.device == n && r.port == Some(q) && q != "all"
    ensures
      var run, ends := LosingRun(third, n, p, q, r), ((third, p), (n, q));
      LockedIn(Exec(m, run[..2]), ends) && !Has(Exec(m, run).mappings, ends)
  {
    var run := LosingRun(third, n, p, q, r);
    var x := Mapping(run[0].from, run[0].to);
    RunOfThree(m, run);
    PairedAndLocked(m, o, n, x.from, x.to, r);
    RunKeepsBetween(m, run[..2], o, n);
    OnePairGoes(Exec(m, run[..2]), o, n, x, r);
  }

  lemma ExecLast(m: Manifest, events: seq<Event>)
    requires events != []
    ensures Exec(m, events) == Apply(Exec(m, events[..|events| - 1]), events[|events| - 1])
  {}

  lemma RunOfThree(m: Manifest, run: seq<Event>)
    requires |run| == 3
    ensures Exec(m, run[..2]) == Apply(Apply(m, run[0]), run[1]) && Exec(m, run) == Apply(Exec(m, run[..2]), run[2])
  {
    ExecLast(m, run);
    ExecLast(m, run[..2]);
    ExecLast(m, run[..1]);
    assert run[..2][..1] == run[..1] && run[..1][..0] == [];
  }

  lemma {:induction false} NodeKnown(devices: seq<Device>, role: Role)
    ensures forall n | n in NodesWith(devices, role) :: Knows(devices, n)
  {
    if devices != [] {
      NodeKnown(devices[..|devices| - 1], role);
      assert forall d | d in devices[..|devices| - 1] :: d in devices;
      assert devices[|devices| - 1] in devices;
    }
  }
}
