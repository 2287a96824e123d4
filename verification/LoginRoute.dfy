/** The login route (gui/auth_routes.py) over the throttle of gui/sessions.py: how many failures of one
(name, IP) it lets through. */
module LoginRoute {
  import opened Wrappers
  import opened Throttle

  // ----- The bound over the login route -----

  /** The route's calls, each with the number of its login: it asks, verifies the password, and
      reports a failure or a success later. */
  datatype Step = Ask(login: nat, who: Who, at: Time) | Fail(login: nat, who: Who, at: Time) | Succeed(login: nat, who: Who, at: Time)

  /** What a step does to the table; asking does nothing. */
  function CallOf(s: Step): seq<Event> {
    match s
    case Ask(_, _, _) => []
    case Fail(_, who, at) => [Failure(who, at)]
    case Succeed(_, who, at) => [Success(who, at)]
  }

  function Calls(steps: seq<Step>): seq<Event> {
    if steps == [] then [] else Calls(steps[..|steps| - 1]) + CallOf(steps[|steps| - 1])
  }

  function TableAfter(p: Policy, limit: Option<nat>, steps: seq<Step>): Table {
    Run(p, limit, Calls(steps))
  }

  /** Logins of `who` that were let in and have not reported yet. */
  function InFlight(p: Policy, limit: Option<nat>, steps: seq<Step>, who: Who): set<nat> {
    if steps == [] then {}
    else
      var before, s := steps[..|steps| - 1], steps[|steps| - 1];
      var open := InFlight(p, limit, before, who);
      if s.who != who then open
      else if !s.Ask? then open - {s.login}
      else if RetryAfter(TableAfter(p, limit, before), who, s.at) == 0 then open + {s.login}
      else open
  }

  /** What the route does for `who`: a login asks once, reports a failure only after it was let in,
      and none succeeds.  Whatever others do is left open. */
  ghost predicate Follows(p: Policy, limit: Option<nat>, before: seq<Step>, s: Step, who: Who) {
    && !s.Succeed?
    && (s.Ask? ==> forall j | 0 <= j < |before| :: before[j].login != s.login)
    && (s.Fail? ==> s.login in InFlight(p, limit, before, who))
  }

  predicate InTime(before: seq<Step>, now: Time) {
    before != [] ==> before[|before| - 1].at <= now
  }

  /** A run of the route in which at most `c` logins of `who` are in flight at any time. */
  ghost predicate LoginRun(p: Policy, limit: Option<nat>, steps: seq<Step>, who: Who, c: nat) {
    steps == [] ||
    var before, s := steps[..|steps| - 1], steps[|steps| - 1];
    && LoginRun(p, limit, before, who, c) && InTime(before, s.at)
    && (s.who == who ==> Follows(p, limit, before, s, who))
    && |InFlight(p, limit, steps, who)| <= c
  }

  lemma CallsSnoc(steps: seq<Step>, s: Step)
    ensures Calls(steps + [s]) == Calls(steps) + CallOf(s)
    ensures s.Ask? ==> Calls(steps + [s]) == Calls(steps)
  {
    assert (steps + [s])[..|steps|] == steps;
  }

  lemma EventSnoc(p: Policy, limit: Option<nat>, calls: seq<Event>, e: Event)
    ensures Run(p, limit, calls + [e]) == Apply(p, limit, Run(p, limit, calls), e)
  {
    assert (calls + [e])[..|calls|] == calls;
  }

  lemma TableSnoc(p: Policy, limit: Option<nat>, steps: seq<Step>, s: Step)
    ensures s.Ask? ==> TableAfter(p, limit, steps + [s]) == TableAfter(p, limit, steps)
    ensures !s.Ask? ==> TableAfter(p, limit, steps + [s]) == Apply(p, limit, TableAfter(p, limit, steps), CallOf(s)[0])
  {
    CallsSnoc(steps, s);
    if !s.Ask? {
      EventSnoc(p, limit, Calls(steps), CallOf(s)[0]);
    }
  }

  lemma InFlightSnoc(p: Policy, limit: Option<nat>, steps: seq<Step>, s: Step, who: Who)
    ensures var open := InFlight(p, limit, steps, who);
            InFlight(p, limit, steps + [s], who) ==
            if s.who != who then open else if !s.Ask? then open - {s.login}
            else if RetryAfter(TableAfter(p, limit, steps), who, s.at) == 0 then open + {s.login} else open
  {
    assert (steps + [s])[..|steps|] == steps;
  }

  predicate Unlocked(t: Table, who: Who, now: Time) {
    who in t ==> t[who].lockedUntil <= now
  }

  lemma AnswerZeroIsUnlocked(t: Table, who: Who, now: Time)
    ensures RetryAfter(t, who, now) == 0 <==> Unlocked(t, who, now)
  {}

  /** The calls of a run come in time order, up to `now`. */
  ghost predicate CallsInTime(calls: seq<Event>, now: Time) {
    Monotone(calls) && (calls != [] ==> calls[|calls| - 1].at <= now)
  }

  lemma CallsInTimeSnoc(calls: seq<Event>, e: Event)
    requires CallsInTime(calls, e.at)
    ensures CallsInTime(calls + [e], e.at)
  {}

  /** One more call is guarded when a `retry_after` just before it would have answered 0. */
  lemma GuardedSnoc(p: Policy, limit: Option<nat>, calls: seq<Event>, e: Event, who: Who)
    requires Guarded(p, limit, calls, who)
    requires e.who == who ==> e.Failure? && RetryAfter(Run(p, limit, calls), who, e.at) == 0
    ensures Guarded(p, limit, calls + [e], who)
  {
    var all := calls + [e];
    forall i | 0 <= i < |all| && all[i].who == who
      ensures all[i].Failure? && RetryAfter(Run(p, limit, all[..i]), who, all[i].at) == 0
    {
      assert all[..i] == calls[..i];
      if i == |calls| {
        assert all[..i] == calls;
      }
    }
  }

  /** What one step means for a login that is alone in flight: nobody else can lock its entry, and
      waiting or pruning only unlocks. */
  lemma AloneStep(p: Policy, limit: Option<nat>, steps: seq<Step>, s: Step, who: Who)
    requires var open := InFlight(p, limit, steps, who);
             |open| <= 1 && (open != {} ==> Unlocked(TableAfter(p, limit, steps), who, s.at))
    requires s.who == who ==> Follows(p, limit, steps, s, who)
    ensures InFlight(p, limit, steps + [s], who) != {} ==> Unlocked(TableAfter(p, limit, steps + [s]), who, s.at)
    ensures s.who == who && s.Fail? ==> RetryAfter(TableAfter(p, limit, steps), who, s.at) == 0
  {
    InFlightSnoc(p, limit, steps, s, who);
    TableSnoc(p, limit, steps, s);
    AnswerZeroIsUnlocked(TableAfter(p, limit, steps), who, s.at);
    if s.who == who && s.Fail? {
      var open := InFlight(p, limit, steps, who);
      assert |open - {s.login}| == |open| - 1;
    }
  }

  /** At `now` a login alone in flight would still hear 0, and all failures so far were guarded. */
  ghost predicate Alone(p: Policy, limit: Option<nat>, steps: seq<Step>, who: Who, now: Time) {
    && Guarded(p, limit, Calls(steps), who) && CallsInTime(Calls(steps), now)
    && |InFlight(p, limit, steps, who)| <= 1
    && (InFlight(p, limit, steps, who) != {} ==> Unlocked(TableAfter(p, limit, steps), who, now))
  }

  lemma AloneLater(p: Policy, limit: Option<nat>, steps: seq<Step>, who: Who, now: Time, later: Time)
    requires Alone(p, limit, steps, who, now) && now <= later
    ensures Alone(p, limit, steps, who, later)
  {}

  lemma AloneSnoc(p: Policy, limit: Option<nat>, before: seq<Step>, s: Step, who: Who)
    requires Alone(p, limit, before, who, s.at) && |InFlight(p, limit, before + [s], who)| <= 1
    requires s.who == who ==> Follows(p, limit, before, s, who)
    ensures Alone(p, limit, before + [s], who, s.at)
  {
    AloneStep(p, limit, before, s, who);
    CallsSnoc(before, s);
    if !s.Ask? {
      GuardedSnoc(p, limit, Calls(before), CallOf(s)[0], who);
      CallsInTimeSnoc(Calls(before), CallOf(s)[0]);
    }
  }

  /** A login that is alone in flight still hears 0 whenever it reports. */
  lemma {:induction false} AloneStillHearsZero(p: Policy, limit: Option<nat>, steps: seq<Step>, who: Who, now: Time)
    requires LoginRun(p, limit, steps, who, 1) && InTime(steps, now)
    ensures Alone(p, limit, steps, who, now)
  {
    if steps != [] {
      var before, s := steps[..|steps| - 1], steps[|steps| - 1];
      assert steps == before + [s];
      AloneStillHearsZero(p, limit, before, who, s.at);
      AloneSnoc(p, limit, before, s, who);
      AloneLater(p, limit, steps, who, s.at, now);
    }
  }

  // ----- The size limit changes no run -----

  lemma {:induction false} RunCallsInTime(p: Policy, limit: Option<nat>, steps: seq<Step>, who: Who, c: nat, now: Time)
    requires LoginRun(p, limit, steps, who, c) && InTime(steps, now)
    ensures CallsInTime(Calls(steps), now)
  {
    if steps != [] {
      var before, s := steps[..|steps| - 1], steps[|steps| - 1];
      RunCallsInTime(p, limit, before, who, c, s.at);
      if !s.Ask? {
        CallsInTimeSnoc(Calls(before), CallOf(s)[0]);
      }
    }
  }

  lemma SameAnswers(p: Policy, a: Option<nat>, b: Option<nat>, steps: seq<Step>, who: Who, now: Time)
    requires CallsInTime(Calls(steps), now)
    ensures RetryAfter(TableAfter(p, a, steps), who, now) == RetryAfter(TableAfter(p, b, steps), who, now)
  {
    PruningIsInvisible(p, a, Calls(steps), who, now);
    PruningIsInvisible(p, b, Calls(steps), who, now);
  }

  /** A run with pruning is a run without, and the other way round, with the same logins in flight. */
  lemma {:induction false} SameRun(p: Policy, a: Option<nat>, b: Option<nat>, steps: seq<Step>, who: Who, c: nat)
    requires LoginRun(p, a, steps, who, c)
    ensures LoginRun(p, b, steps, who, c) && InFlight(p, a, steps, who) == InFlight(p, b, steps, who)
  {
    if steps != [] {
      var before, s := steps[..|steps| - 1], steps[|steps| - 1];
      SameRun(p, a, b, before, who, c);
      RunCallsInTime(p, a, before, who, c, s.at);
      SameAnswers(p, a, b, before, who, s.at);
    }
  }

  // ----- The most failures in a window -----

  function Failed(p: Policy, steps: seq<Step>, who: Who, from: real): nat {
    InWindow(p, Times(Calls(steps), who), from)
  }

  function Smaller(a: int, b: int): int {
    if a <= b then a else b
  }

  /** With c logins in flight: as many as may still fail under a lock from before the window without
      renewing it, then the threshold, then all the others that are in flight when the lock falls. */
  function Most(p: Policy, c: nat): nat {
    if c == 0 then 0 else Allowed(p) + (c - 1) + Smaller(c - 1, Allowed(p) - 1)
  }

  /** What an entry with `o` logins in flight and `n` failures in the window allows for, at `now`. */
  ghost predicate Fits(p: Policy, from: real, c: nat, entry: Option<Failures>, o: nat, n: nat, now: Time)
    requires c >= 1
  {
    && o <= c && n <= Most(p, c) && (now < from ==> n == 0)
    && (entry.None? ==> n == 0)
    && (entry.Some? ==>
          var f := entry.value;
          && f.count < Allowed(p) && f.lastFailure <= now && f.lockedUntil <= f.lastFailure + p.lockout
          && (f.lastFailure < from ==> n == 0)
          && (now < from + p.lockout ==>
                if f.lockedUntil > now then
                  && o <= c - 1
                  && (if f.lockedUntil < from + p.lockout then n <= f.count && n + o <= c - 1 else n + o <= Most(p, c))
                else n <= Smaller(c - 1, Allowed(p) - 1) + if f.lockedUntil == 0.0 then f.count else 0))
  }

  lemma WaitingFits(p: Policy, from: real, c: nat, entry: Option<Failures>, o: nat, n: nat, now: Time, later: Time)
    requires c >= 1 && p.lockout > 0.0 && Fits(p, from, c, entry, o, n, now) && now <= later
    ensures Fits(p, from, c, entry, o, n, later)
  {}

  lemma AskingFits(p: Policy, from: real, c: nat, entry: Option<Failures>, o: nat, n: nat, now: Time)
    requires c >= 1 && Fits(p, from, c, entry, o, n, now) && o + 1 <= c
    requires entry.Some? ==> entry.value.lockedUntil <= now
    ensures Fits(p, from, c, entry, o + 1, n, now)
  {}

  lemma FailingFits(p: Policy, from: real, c: nat, entry: Option<Failures>, o: nat, n: nat, now: Time)
    requires c >= 1 && p.lockout > 0.0 && Fits(p, from, c, entry, o, n, now) && o >= 1
    ensures Fits(p, from, c, Some(Count(p, entry, now)), o - 1, n + if from <= now < from + p.lockout then 1 else 0, now)
  {}

  lemma FailedSnoc(p: Policy, steps: seq<Step>, s: Step, who: Who, from: real)
    ensures Failed(p, steps + [s], who, from) ==
            Failed(p, steps, who, from) + if s.Fail? && s.who == who && from <= s.at < from + p.lockout then 1 else 0
  {
    CallsSnoc(steps, s);
    if !s.Ask? {
      TimesSnoc(Calls(steps), CallOf(s)[0], who);
      if s.Fail? && s.who == who {
        WindowSnoc(p, Times(Calls(steps), who), s.at, from);
      }
    }
  }

  lemma TimesSnoc(calls: seq<Event>, e: Event, who: Who)
    ensures Times(calls + [e], who) == Times(calls, who) + if e.Failure? && e.who == who then [e.at] else []
    ensures !(e.Failure? && e.who == who) ==> Times(calls + [e], who) == Times(calls, who)
  {
    assert (calls + [e])[..|calls|] == calls;
  }

  lemma WindowSnoc(p: Policy, times: seq<Time>, t: Time, from: real)
    ensures InWindow(p, times + [t], from) == InWindow(p, times, from) + if from <= t < from + p.lockout then 1 else 0
  {
    assert (times + [t])[..|times|] == times;
  }

  function EntryAfter(p: Policy, steps: seq<Step>, who: Who): Option<Failures> {
    EntryOf(TableAfter(p, None, steps), who)
  }

  /** One step, in terms of the entry, the logins in flight and the failures in the window. */
  lemma StepOfWho(p: Policy, steps: seq<Step>, s: Step, who: Who)
    ensures s.who == who && s.Fail? ==> EntryAfter(p, steps + [s], who) == Some(Count(p, EntryAfter(p, steps, who), s.at))
    ensures s.who != who || s.Ask? ==> EntryAfter(p, steps + [s], who) == EntryAfter(p, steps, who)
  {
    TableSnoc(p, None, steps, s);
  }

  lemma StepFits(p: Policy, steps: seq<Step>, s: Step, who: Who, c: nat, from: real)
    requires c >= 1 && p.lockout > 0.0 && (s.who == who ==> Follows(p, None, steps, s, who))
    requires |InFlight(p, None, steps + [s], who)| <= c
    requires Fits(p, from, c, EntryAfter(p, steps, who), |InFlight(p, None, steps, who)|, Failed(p, steps, who, from), s.at)
    ensures Fits(p, from, c, EntryAfter(p, steps + [s], who), |InFlight(p, None, steps + [s], who)|, Failed(p, steps + [s], who, from), s.at)
  {
    var entry, open, n := EntryAfter(p, steps, who), InFlight(p, None, steps, who), Failed(p, steps, who, from);
    StepOfWho(p, steps, s, who);
    InFlightSnoc(p, None, steps, s, who);
    FailedSnoc(p, steps, s, who, from);
    if s.who == who && s.Fail? {
      assert |open - {s.login}| == |open| - 1;
      FailingFits(p, from, c, entry, |open|, n, s.at);
    } else if s.who == who && RetryAfter(TableAfter(p, None, steps), who, s.at) == 0 && s.login !in open {
      AnswerZeroIsUnlocked(TableAfter(p, None, steps), who, s.at);
      assert |open + {s.login}| == |open| + 1;
      AskingFits(p, from, c, entry, |open|, n, s.at);
    } else if s.who == who {
      assert InFlight(p, None, steps + [s], who) == open;
    }
  }

  lemma {:induction false} RunFits(p: Policy, steps: seq<Step>, who: Who, c: nat, from: real, now: Time)
    requires c >= 1 && p.lockout > 0.0 && LoginRun(p, None, steps, who, c) && InTime(steps, now)
    ensures Fits(p, from, c, EntryAfter(p, steps, who), |InFlight(p, None, steps, who)|, Failed(p, steps, who, from), now)
  {
    if steps != [] {
      var before, s := steps[..|steps| - 1], steps[|steps| - 1];
      assert steps == before + [s];
      RunFits(p, before, who, c, from, s.at);
      StepFits(p, before, s, who, c, from);
      WaitingFits(p, from, c, EntryAfter(p, steps, who), |InFlight(p, None, steps, who)|, Failed(p, steps, who, from), s.at, now);
    }
  }

  lemma {:induction false} NoneInFlightNoneFail(p: Policy, limit: Option<nat>, steps: seq<Step>, who: Who, from: real)
    requires LoginRun(p, limit, steps, who, 0)
    ensures InFlight(p, limit, steps, who) == {} && Failed(p, steps, who, from) == 0
  {
    if steps != [] {
      var before, s := steps[..|steps| - 1], steps[|steps| - 1];
      assert steps == before + [s];
      NoneInFlightNoneFail(p, limit, before, who, from);
      FailedSnoc(p, before, s, who, from);
    }
  }

  lemma NeverMoreThanMost(p: Policy, limit: Option<nat>, steps: seq<Step>, who: Who, c: nat, from: real)
    requires p.lockout > 0.0 && LoginRun(p, limit, steps, who, c)
    ensures Failed(p, steps, who, from) <= Most(p, c)
  {
    if c == 0 {
      NoneInFlightNoneFail(p, limit, steps, who, from);
    } else {
      SameRun(p, limit, None, steps, who, c);
      RunFits(p, steps, who, c, from, if steps == [] then 0.0 else steps[|steps| - 1].at);
    }
  }

  // ----- A run with the most failures -----

  predicate Fresh(steps: seq<Step>, ids: nat) {
    forall i | 0 <= i < |steps| :: steps[i].login < ids
  }

  /** Where a run has got to by `now`. */
  ghost predicate Reached(p: Policy, steps: seq<Step>, who: Who, c: nat, entry: Option<Failures>, open: set<nat>, from: real, n: nat, now: Time, ids: nat) {
    && LoginRun(p, None, steps, who, c) && InTime(steps, now) && Fresh(steps, ids)
    && EntryAfter(p, steps, who) == entry && InFlight(p, None, steps, who) == open && Failed(p, steps, who, from) == n
    && forall id | id in open :: id < ids
  }

  lemma RunSnoc(p: Policy, limit: Option<nat>, steps: seq<Step>, s: Step, who: Who, c: nat)
    requires LoginRun(p, limit, steps, who, c) && InTime(steps, s.at)
    requires Follows(p, limit, steps, s, who) && |InFlight(p, limit, steps + [s], who)| <= c
    ensures LoginRun(p, limit, steps + [s], who, c)
  {
    assert (steps + [s])[..|steps|] == steps;
  }

  predicate Open(entry: Option<Failures>, now: Time) {
    entry.Some? ==> entry.value.lockedUntil <= now
  }

  lemma AskNow(p: Policy, steps: seq<Step>, who: Who, c: nat, entry: Option<Failures>, open: set<nat>, from: real, n: nat, now: Time, ids: nat)
    returns (next: seq<Step>)
    requires Reached(p, steps, who, c, entry, open, from, n, now, ids) && Open(entry, now) && |open| < c
    ensures Reached(p, next, who, c, entry, open + {ids}, from, n, now, ids + 1)
  {
    var s := Ask(ids, who, now);
    AnswerZeroIsUnlocked(TableAfter(p, None, steps), who, now);
    StepOfWho(p, steps, s, who);
    InFlightSnoc(p, None, steps, s, who);
    FailedSnoc(p, steps, s, who, from);
    RunSnoc(p, None, steps, s, who, c);
    next := steps + [s];
  }

  lemma FailNow(p: Policy, steps: seq<Step>, who: Who, c: nat, entry: Option<Failures>, open: set<nat>, from: real, n: nat, now: Time, ids: nat, id: nat)
    returns (next: seq<Step>)
    requires Reached(p, steps, who, c, entry, open, from, n, now, ids) && id in open && |open| <= c
    ensures Reached(p, next, who, c, Some(Count(p, entry, now)), open - {id}, from, n + (if from <= now < from + p.lockout then 1 else 0), now, ids)
  {
    var s := Fail(id, who, now);
    StepOfWho(p, steps, s, who);
    InFlightSnoc(p, None, steps, s, who);
    FailedSnoc(p, steps, s, who, from);
    assert |open - {id}| == |open| - 1;
    RunSnoc(p, None, steps, s, who, c);
    next := steps + [s];
  }

  /** `j` more logins are let in. */
  lemma {:induction false} AskMany(p: Policy, steps: seq<Step>, who: Who, c: nat, entry: Option<Failures>, open: set<nat>,
                                   from: real, n: nat, now: Time, ids: nat, j: nat)
    returns (next: seq<Step>, more: set<nat>)
    requires Reached(p, steps, who, c, entry, open, from, n, now, ids) && Open(entry, now) && |open| + j <= c
    ensures Reached(p, next, who, c, entry, more, from, n, now, ids + j) && |more| == |open| + j
    decreases j
  {
    if j == 0 {
      next, more := steps, open;
    } else {
      next := AskNow(p, steps, who, c, entry, open, from, n, now, ids);
      assert |open + {ids}| == |open| + 1;
      next, more := AskMany(p, next, who, c, entry, open + {ids}, from, n, now, ids + 1, j - 1);
    }
  }

  /** All logins in flight fail, whatever the entry becomes. */
  lemma {:induction false} FailAll(p: Policy, steps: seq<Step>, who: Who, c: nat, entry: Option<Failures>, open: set<nat>,
                                   from: real, n: nat, now: Time, ids: nat)
    returns (next: seq<Step>, last: Option<Failures>)
    requires Reached(p, steps, who, c, entry, open, from, n, now, ids) && |open| <= c && from <= now < from + p.lockout
    ensures Reached(p, next, who, c, last, {}, from, n + |open|, now, ids)
    decreases |open|
  {
    if open == {} {
      next, last := steps, entry;
    } else {
      var id :| id in open;
      next := FailNow(p, steps, who, c, entry, open, from, n, now, ids, id);
      assert |open - {id}| == |open| - 1;
      next, last := FailAll(p, next, who, c, Some(Count(p, entry, now)), open - {id}, from, n + 1, now, ids);
    }
  }

  /** Logins in flight fail under a lock, too few to renew it. */
  lemma {:induction false} FailLocked(p: Policy, steps: seq<Step>, who: Who, c: nat, f: Failures, open: set<nat>, from: real, n: nat, now: Time, ids: nat)
    returns (next: seq<Step>, last: Failures)
    requires Reached(p, steps, who, c, Some(f), open, from, n, now, ids) && |open| <= c && from <= now < from + p.lockout
    requires now < f.lockedUntil && now - f.lastFailure <= p.lockout && f.count + |open| < Allowed(p)
    ensures Reached(p, next, who, c, Some(last), {}, from, n + |open|, now, ids) && last.lockedUntil == f.lockedUntil
    decreases |open|
  {
    if open == {} {
      next, last := steps, f;
    } else {
      var id :| id in open;
      next := FailNow(p, steps, who, c, Some(f), open, from, n, now, ids, id);
      assert |open - {id}| == |open| - 1;
      next, last := FailLocked(p, next, who, c, Failures(f.count + 1, now, f.lockedUntil), open - {id}, from, n + 1, now, ids);
    }
  }

  /** An entry from which the next failure counts as the first. */
  predicate Blank(p: Policy, entry: Option<Failures>, now: Time) {
    entry.Some? ==> 0.0 < entry.value.lockedUntil <= now
  }

  function Counted(entry: Option<Failures>, n: nat, now: Time): Option<Failures> {
    if n == 0 then entry else Some(Failures(n, now, 0.0))
  }

  lemma OneMoreCounted(p: Policy, entry: Option<Failures>, now: Time, j: nat)
    requires p.lockout > 0.0 && Blank(p, entry, now) && j + 1 < Allowed(p)
    ensures Some(Count(p, Counted(entry, j, now), now)) == Counted(entry, j + 1, now)
  {}

  /** One login asks and fails at once. */
  lemma OneLogin(p: Policy, steps: seq<Step>, who: Who, c: nat, entry: Option<Failures>, from: real, n: nat, now: Time, ids: nat)
    returns (next: seq<Step>)
    requires Reached(p, steps, who, c, entry, {}, from, n, now, ids) && c >= 1 && Open(entry, now)
    ensures Reached(p, next, who, c, Some(Count(p, entry, now)), {}, from, n + (if from <= now < from + p.lockout then 1 else 0), now, ids + 1)
  {
    next := AskNow(p, steps, who, c, entry, {}, from, n, now, ids);
    next := FailNow(p, next, who, c, entry, {} + {ids}, from, n, now, ids + 1, ids);
    assert {} + {ids} - {ids} == {};
  }

  /** One login after the other. */
  lemma {:induction false} Serial(p: Policy, steps: seq<Step>, who: Who, c: nat, entry: Option<Failures>, from: real, n: nat, now: Time, ids: nat, j: nat)
    returns (next: seq<Step>)
    requires Reached(p, steps, who, c, entry, {}, from, n, now, ids) && c >= 1 && p.lockout > 0.0 && Blank(p, entry, now) && j < Allowed(p)
    ensures Reached(p, next, who, c, Counted(entry, j, now), {}, from, n + (if from <= now < from + p.lockout then j else 0), now, ids + j)
    decreases j
  {
    next := steps;
    if j > 0 {
      var m := n + if from <= now < from + p.lockout then j - 1 else 0;
      next := Serial(p, steps, who, c, entry, from, n, now, ids, j - 1);
      OneMoreCounted(p, entry, now, j - 1);
      next := OneLogin(p, next, who, c, Counted(entry, j - 1, now), from, m, now, ids + j - 1);
    }
  }

  lemma LaterReached(p: Policy, steps: seq<Step>, who: Who, c: nat, entry: Option<Failures>, open: set<nat>,
                     from: real, n: nat, now: Time, later: Time, ids: nat)
    requires Reached(p, steps, who, c, entry, open, from, n, now, ids) && now <= later
    ensures Reached(p, steps, who, c, entry, open, from, n, later, ids)
  {}

  /** Before the window: a lock falls at instant 0 and leaves `a` logins in flight. */
  lemma LockedBefore(p: Policy, who: Who, c: nat, from: real, a: nat) returns (steps: seq<Step>, open: set<nat>, ids: nat)
    requires p.lockout > 0.0 && from > 0.0 && a + 1 <= c
    ensures Reached(p, steps, who, c, Some(Failures(0, 0.0, p.lockout)), open, from, 0, 0.0, ids) && |open| == a
  {
    var k := Allowed(p) - 1;
    steps := Serial(p, [], who, c, None, from, 0, 0.0, 0, k);
    steps, open := AskMany(p, steps, who, c, Counted(None, k, 0.0), {}, from, 0, 0.0, k, a + 1);
    var id :| id in open;
    steps := FailNow(p, steps, who, c, Counted(None, k, 0.0), open, from, 0, 0.0, k + a + 1, id);
    assert |open - {id}| == a;
    open, ids := open - {id}, k + a + 1;
  }

  lemma MostIsReached(p: Policy, limit: Option<nat>, who: Who, c: nat) returns (steps: seq<Step>, from: real)
    requires p.lockout > 0.0
    ensures LoginRun(p, limit, steps, who, c) && Failed(p, steps, who, from) == Most(p, c)
  {
    if c == 0 {
      return [], 0.0;
    }
    var a, k := Smaller(c - 1, Allowed(p) - 1), Allowed(p) - 1;
    var half, open, ids := p.lockout / 2.0, {}, 0;
    from := half;
    steps, open, ids := LockedBefore(p, who, c, from, a);
    LaterReached(p, steps, who, c, Some(Failures(0, 0.0, p.lockout)), open, from, 0, 0.0, half, ids);
    var f: Failures;
    steps, f := FailLocked(p, steps, who, c, Failures(0, 0.0, p.lockout), open, from, 0, half, ids);
    LaterReached(p, steps, who, c, Some(f), {}, from, a, half, p.lockout, ids);
    steps := Serial(p, steps, who, c, Some(f), from, a, p.lockout, ids, k);
    var entry := Counted(Some(f), k, p.lockout);
    steps, open := AskMany(p, steps, who, c, entry, {}, from, a + k, p.lockout, ids + k, c);
    var last;
    steps, last := FailAll(p, steps, who, c, entry, open, from, a + k, p.lockout, ids + k + c);
    SameRun(p, None, limit, steps, who, c);
  }

  ghost predicate Bounded(p: Policy, limit: Option<nat>, who: Who, c: nat, most: nat) {
    forall steps, from | LoginRun(p, limit, steps, who, c) :: Failed(p, steps, who, from) <= most
  }

  /** Main theorem on the route: with at most `c` logins of one (name, IP) in flight, a number bounds
      their failures in every window if and only if it is at least `Most`. */
  lemma LargestPerWindow(p: Policy, limit: Option<nat>, who: Who, c: nat, most: nat)
    requires p.lockout > 0.0
    ensures Bounded(p, limit, who, c, most) <==> most >= Most(p, c)
  {
    if most >= Most(p, c) {
      forall steps, from | LoginRun(p, limit, steps, who, c) ensures Failed(p, steps, who, from) <= most {
        NeverMoreThanMost(p, limit, steps, who, c, from);
      }
    } else {
      var steps, from := MostIsReached(p, limit, who, c);
    }
  }

  /** So the threshold itself is the bound if and only if at most one login is in flight.  The route
      lets any number in. */
  lemma BoundedExactlyOneAtATime(p: Policy, limit: Option<nat>, who: Who, c: nat)
    requires p.lockout > 0.0
    ensures Bounded(p, limit, who, c, Allowed(p)) <==> c <= 1
  {
    LargestPerWindow(p, limit, who, c, Allowed(p));
  }
}
