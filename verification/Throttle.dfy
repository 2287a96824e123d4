/** The login throttle of gui/sessions.py (LoginThrottle): a lock of `lockout` seconds after
`threshold` failures in a row for one (name, IP), with pruning of a large table. */
module Throttle {
  import opened Wrappers

  /** (user name, IP address). */
  type Who = (string, string)

  /** Readings of a monotone clock, which is never negative. */
  type Time = t: real | t >= 0.0 witness 0.0

  datatype Failures = Failures(count: nat, lastFailure: Time, lockedUntil: Time)

  datatype Policy = Policy(threshold: int, lockout: Time)

  type Table = map<Who, Failures>

  const PRUNE_ABOVE := 10_000

  function Ceil(x: real): int {
    -((-x).Floor)
  }

  function RetryAfter(t: Table, who: Who, now: Time): int {
    if who !in t || t[who].lockedUntil <= now then 0 else Ceil(t[who].lockedUntil - now)
  }

  /** An entry that neither locks nor counts any more. */
  predicate Stale(p: Policy, f: Failures, now: Time) {
    f.lockedUntil <= now && now - f.lastFailure > p.lockout
  }

  function Prune(p: Policy, t: Table, now: Time): Table {
    map k | k in t && !Stale(p, t[k], now) :: t[k]
  }

  /** A failure of one (name, IP) whose entry was `known`. */
  function Count(p: Policy, known: Option<Failures>, now: Time): Failures {
    var base :=
      if known.None? || (known.value.lockedUntil != 0.0 && known.value.lockedUntil <= now) || now - known.value.lastFailure > p.lockout
      then Failures(0, now, 0.0) else known.value;
    if base.count + 1 >= p.threshold then Failures(0, now, now + p.lockout)
    else Failures(base.count + 1, now, base.lockedUntil)
  }

  function EntryOf(t: Table, who: Who): Option<Failures> {
    if who in t then Some(t[who]) else None
  }

  datatype Event = Failure(who: Who, at: Time) | Success(who: Who, at: Time)

  /** One call; `limit` is the size above which a failure prunes first, None for never. */
  function Apply(p: Policy, limit: Option<nat>, t: Table, e: Event): Table {
    match e
    case Failure(who, now) =>
      var kept := if limit.Some? && |t| > limit.value then Prune(p, t, now) else t;
      kept[who := Count(p, EntryOf(kept, who), now)]
    case Success(who, _) => t - {who}
  }

  function Run(p: Policy, limit: Option<nat>, trace: seq<Event>): Table {
    if trace == [] then map[] else Apply(p, limit, Run(p, limit, trace[..|trace| - 1]), trace[|trace| - 1])
  }

  class LoginThrottle {
    const policy: Policy
    var entries: Table

    constructor (threshold: int, lockout: Time)
      ensures policy == Policy(threshold, lockout) && entries == map[]
    {
      policy := Policy(threshold, lockout);
      entries := map[];
    }

    method Retry(who: Who, now: Time) returns (r: int)
      ensures r == RetryAfter(entries, who, now)
      ensures r == 0 <==> !(who in entries && now < entries[who].lockedUntil)
      ensures r > 0 ==> entries[who].lockedUntil <= now + r as real < entries[who].lockedUntil + 1.0
    {
      if who !in entries || entries[who].lockedUntil <= now {
        return 0;
      }
      r := Ceil(entries[who].lockedUntil - now);
    }

    method Failure(who: Who, now: Time)
      modifies this
      ensures entries == Apply(policy, Some(10_000), old(entries), Event.Failure(who, now))
    {
      if |entries| > PRUNE_ABOVE {
        var stale := set k | k in entries && Stale(policy, entries[k], now);
        var todo := stale;
        while todo != {}
          invariant todo <= stale
          invariant entries == map k | k in old(entries) && k !in stale - todo :: old(entries)[k]
          decreases todo
        {
          var k :| k in todo;
          entries := entries - {k};
          todo := todo - {k};
        }
        assert entries == Prune(policy, old(entries), now);
      }
      var entry := Failures(0, now, 0.0);
      if who in entries {
        var known := entries[who];
        if !((known.lockedUntil != 0.0 && known.lockedUntil <= now) || now - known.lastFailure > policy.lockout) {
          entry := known;
        }
      }
      entry := entry.(count := entry.count + 1, lastFailure := now);
      if entry.count >= policy.threshold {
        entry := entry.(lockedUntil := now + policy.lockout, count := 0);
      }
      entries := entries[who := entry];
    }

    method Success(who: Who, now: Time)
      modifies this
      ensures entries == old(entries) - {who}
    {
      entries := entries - {who};
    }
  }

  ghost predicate Monotone(trace: seq<Event>) {
    forall i, j | 0 <= i < j < |trace| :: trace[i].at <= trace[j].at
  }

  // ----- Pruning cannot be observed -----

  /** The pruned table lacks only entries that were already stale. */
  ghost predicate Refines(p: Policy, pruned: Table, full: Table, now: Time) {
    && (forall k | k in pruned :: k in full && full[k] == pruned[k])
    && (forall k | k in full && k !in pruned :: Stale(p, full[k], now))
  }

  lemma StepRefines(p: Policy, limit: Option<nat>, pruned: Table, full: Table, e: Event, before: Time)
    requires Refines(p, pruned, full, before) && before <= e.at
    ensures Refines(p, Apply(p, limit, pruned, e), Apply(p, None, full, e), e.at)
  {}

  lemma {:induction false} RunRefines(p: Policy, limit: Option<nat>, trace: seq<Event>, now: Time)
    requires Monotone(trace) && (trace != [] ==> trace[|trace| - 1].at <= now)
    ensures Refines(p, Run(p, limit, trace), Run(p, None, trace), now)
  {
    if trace != [] {
      var before, e := trace[..|trace| - 1], trace[|trace| - 1];
      RunRefines(p, limit, before, e.at);
      StepRefines(p, limit, Run(p, limit, before), Run(p, None, before), e, e.at);
    }
  }

  /** Whatever the size limit, pruning changes no answer, over any run. */
  lemma PruningIsInvisible(p: Policy, limit: Option<nat>, trace: seq<Event>, who: Who, now: Time)
    requires Monotone(trace) && (trace != [] ==> trace[|trace| - 1].at <= now)
    ensures RetryAfter(Run(p, limit, trace), who, now) == RetryAfter(Run(p, None, trace), who, now)
  {
    RunRefines(p, limit, trace, now);
  }

  /** The readings must be in the order of the calls.  An answer for a reading from before the
      pruning differs, if the caller's entry was still locked then. */
  lemma EarlierReadingSeesPruning(p: Policy, limit: nat, t: Table, who: Who, other: Who, now: Time, earlier: Time)
    requires |t| > limit && who in t && other != who && t[who].lockedUntil <= now && now - t[who].lastFailure > p.lockout
    ensures
      var e := Failure(other, now);
      RetryAfter(Apply(p, Some(limit), t, e), who, earlier) != RetryAfter(Apply(p, None, t, e), who, earlier) <==>
      earlier < t[who].lockedUntil
  {}

  // ----- The bound on failures -----

  /** Every failure of `who` happened while a `retry_after` would have answered 0, and no login of
      theirs succeeded. */
  ghost predicate Guarded(p: Policy, limit: Option<nat>, trace: seq<Event>, who: Who) {
    forall i | 0 <= i < |trace| && trace[i].who == who ::
      trace[i].Failure? && RetryAfter(Run(p, limit, trace[..i]), who, trace[i].at) == 0
  }

  /** The times of the failures of one (name, IP). */
  function Times(trace: seq<Event>, who: Who): seq<Time> {
    if trace == [] then []
    else
      var e := trace[|trace| - 1];
      Times(trace[..|trace| - 1], who) + if e.Failure? && e.who == who then [e.at] else []
  }

  /** Failures per window; a threshold below one still lets one failure through. */
  function Allowed(p: Policy): nat {
    if p.threshold >= 1 then p.threshold else 1
  }

  ghost predicate Spaced(p: Policy, times: seq<Time>) {
    && (forall i, j | 0 <= i <= j < |times| :: times[i] <= times[j])
    && (forall i, j | 0 <= i && i + Allowed(p) <= j < |times| :: times[j] - times[i] >= p.lockout)
  }

  /** What the entry tells about the failures so far: a lock counts from the last failure;
      otherwise `count` failures at the end follow a gap of at least `lockout`. */
  ghost predicate Streak(p: Policy, times: seq<Time>, entry: Option<Failures>) {
    var n := |times|;
    match entry
    case None => n == 0
    case Some(f) =>
      && n > 0 && f.lastFailure == times[n - 1]
      && if f.lockedUntil != 0.0 then f.lockedUntil == times[n - 1] + p.lockout
         else 1 <= f.count < Allowed(p) && f.count <= n && (f.count < n ==> times[n - f.count] - times[n - f.count - 1] >= p.lockout)
  }

  lemma FailureKeepsSpacing(p: Policy, times: seq<Time>, entry: Option<Failures>, now: Time)
    requires p.lockout > 0.0 && Spaced(p, times) && Streak(p, times, entry)
    requires times != [] ==> times[|times| - 1] <= now
    requires entry.Some? ==> entry.value.lockedUntil <= now
    ensures Spaced(p, times + [now]) && Streak(p, times + [now], Some(Count(p, entry, now)))
  {}

  ghost predicate Tracks(p: Policy, trace: seq<Event>, who: Who, entry: Option<Failures>) {
    var times := Times(trace, who);
    && Spaced(p, times) && Streak(p, times, entry)
    && (times != [] ==> trace != [] && times[|times| - 1] <= trace[|trace| - 1].at)
  }

  lemma EventKeepsTrack(p: Policy, before: seq<Event>, e: Event, who: Who, t: Table)
    requires p.lockout > 0.0 && Tracks(p, before, who, EntryOf(t, who))
    requires before != [] ==> before[|before| - 1].at <= e.at
    requires e.who == who ==> e.Failure? && (EntryOf(t, who).Some? ==> EntryOf(t, who).value.lockedUntil <= e.at)
    ensures Tracks(p, before + [e], who, EntryOf(Apply(p, None, t, e), who))
  {
    var trace, entry := before + [e], EntryOf(t, who);
    assert trace[..|before|] == before && trace[|trace| - 1] == e;
    if e.who == who {
      assert Times(trace, who) == Times(before, who) + [e.at];
      assert EntryOf(Apply(p, None, t, e), who) == Some(Count(p, entry, e.at));
      FailureKeepsSpacing(p, Times(before, who), entry, e.at);
    } else {
      assert Times(trace, who) == Times(before, who);
      assert EntryOf(Apply(p, None, t, e), who) == entry;
    }
  }

  lemma RunStep(p: Policy, trace: seq<Event>, n: nat)
    requires 0 < n <= |trace|
    ensures trace[..n] == trace[..n - 1] + [trace[n - 1]]
    ensures Run(p, None, trace[..n]) == Apply(p, None, Run(p, None, trace[..n - 1]), trace[n - 1])
  {}

  lemma GuardedAt(p: Policy, trace: seq<Event>, who: Who, i: nat)
    requires Guarded(p, None, trace, who) && i < |trace| && trace[i].who == who
    ensures trace[i].Failure?
    ensures var entry := EntryOf(Run(p, None, trace[..i]), who);
            entry.Some? ==> entry.value.lockedUntil <= trace[i].at
  {}

  lemma {:induction false} GuardedFailuresAreSpaced(p: Policy, trace: seq<Event>, who: Who, n: nat)
    requires p.lockout > 0.0 && Monotone(trace) && Guarded(p, None, trace, who) && n <= |trace|
    ensures Tracks(p, trace[..n], who, EntryOf(Run(p, None, trace[..n]), who))
  {
    if n == 0 {
      assert trace[..n] == [];
    } else {
      GuardedFailuresAreSpaced(p, trace, who, n - 1);
      if trace[n - 1].who == who {
        GuardedAt(p, trace, who, n - 1);
      }
      EventKeepsTrack(p, trace[..n - 1], trace[n - 1], who, Run(p, None, trace[..n - 1]));
      RunStep(p, trace, n);
    }
  }

  /** How many of the times fall into the half-open window of length `lockout` at `from`. */
  function InWindow(p: Policy, times: seq<Time>, from: real): nat {
    if times == [] then 0
    else InWindow(p, times[..|times| - 1], from) + if from <= times[|times| - 1] < from + p.lockout then 1 else 0
  }

  lemma {:induction false} TooEarlyDoesNotCount(p: Policy, times: seq<Time>, from: real, m: nat)
    requires m <= |times| && forall i | 0 <= i < m :: times[i] < from
    ensures InWindow(p, times, from) <= |times| - m
  {
    if m < |times| {
      TooEarlyDoesNotCount(p, times[..|times| - 1], from, m);
    } else if times != [] {
      TooEarlyDoesNotCount(p, times[..|times| - 1], from, m - 1);
    }
  }

  lemma {:induction false} SpacedFailuresPerWindow(p: Policy, times: seq<Time>, from: real)
    requires Spaced(p, times)
    ensures InWindow(p, times, from) <= Allowed(p)
  {
    var n, k := |times|, Allowed(p);
    if times != [] && !(from <= times[n - 1] < from + p.lockout) {
      SpacedFailuresPerWindow(p, times[..n - 1], from);
    } else {
      TooEarlyDoesNotCount(p, times, from, if n > k then n - k else 0);
    }
  }

  /** Main theorem: in the table as the code keeps it, any half-open window of length `lockout`
      holds at most `threshold` guarded failures of one (name, IP), whatever others do. */
  lemma AtMostThresholdPerWindow(p: Policy, limit: Option<nat>, trace: seq<Event>, who: Who, from: real)
    requires Monotone(trace) && Guarded(p, limit, trace, who)
    ensures InWindow(p, Times(trace, who), from) <= Allowed(p)
  {
    if p.lockout > 0.0 {
      forall i | 0 <= i < |trace| && trace[i].who == who
        ensures RetryAfter(Run(p, None, trace[..i]), who, trace[i].at) == 0
      {
        PruningIsInvisible(p, limit, trace[..i], who, trace[i].at);
      }
      GuardedFailuresAreSpaced(p, trace, who, |trace|);
      assert trace[..|trace|] == trace;
      SpacedFailuresPerWindow(p, Times(trace, who), from);
    } else {
      EmptyWindow(p, Times(trace, who), from);
    }
  }

  lemma {:induction false} EmptyWindow(p: Policy, times: seq<Time>, from: real)
    requires p.lockout == 0.0
    ensures InWindow(p, times, from) == 0
  {
    if times != [] {
      EmptyWindow(p, times[..|times| - 1], from);
    }
  }
}
