/** When the login throttle of gui/sessions.py answers a delay, told from the failures alone. */
module LockRule {
  import opened Wrappers
  import opened Throttle

  /** The failures of `who` since the last success. */
  function Since(trace: seq<Event>, who: Who): seq<Time> {
    if trace == [] then []
    else
      var before, e := Since(trace[..|trace| - 1], who), trace[|trace| - 1];
      if e.who != who then before else if e.Failure? then before + [e.at] else []
  }

  /** Failure i completes a streak: it is the last of `threshold` failures, each at most `lockout` after
      the one before, none of which completed a streak earlier and during which no lock ended.  `done`
      marks the earlier failures that completed one. */
  ghost predicate Streak(p: Policy, ts: seq<Time>, done: seq<bool>, i: int)
    requires 0 <= i < |ts| && i <= |done| <= |ts|
  {
    var s := i + 1 - Allowed(p);
    && s >= 0
    && (forall m | s < m <= i :: ts[m] - ts[m - 1] <= p.lockout)
    && (forall m | s <= m < i :: !done[m])
    && NoLockEnds(p, ts, done, s, i)
  }

  /** The lock before failure s does not end between it and failure i. */
  ghost predicate NoLockEnds(p: Policy, ts: seq<Time>, done: seq<bool>, s: int, i: int)
    requires 0 <= s <= i < |ts| && s <= |done| <= |ts|
  {
    forall c | LastLock(done, c, s) :: !EndsIn(p, ts, c, s, i)
  }

  /** The lock set by failure c ends after failure s and not after failure i. */
  predicate EndsIn(p: Policy, ts: seq<Time>, c: int, s: int, i: int)
    requires 0 <= c < |ts| && 0 <= s < |ts| && 0 <= i < |ts|
  {
    ts[s] < ts[c] + p.lockout <= ts[i]
  }

  /** The last streak completed by the failures before `end`. */
  ghost predicate LastLock(done: seq<bool>, c: int, end: int)
    requires end <= |done|
  {
    0 <= c < end && done[c] && forall m | c < m < end :: !done[m]
  }

  ghost predicate Ascending(ts: seq<Time>) {
    forall i, j | 0 <= i <= j < |ts| :: ts[i] <= ts[j]
  }

  /** After n failures the lock of failure c is in force, and the failures since were counted. */
  ghost predicate Locked(p: Policy, ts: seq<Time>, done: seq<bool>, n: nat, f: Failures)
    requires n <= |ts| && n <= |done|
  {
    var c := n - 1 - f.count;
    LastLock(done, c, n) && f.lockedUntil == ts[c] + p.lockout && ts[n - 1] < ts[c] + p.lockout
  }

  /** Counting starts at failure s: it is the first, or follows a gap, or a lock had ended by then. */
  ghost predicate StartsAt(p: Policy, ts: seq<Time>, done: seq<bool>, s: int)
    requires 0 <= s < |ts| && s <= |done|
  {
    s == 0 || ts[s] - ts[s - 1] > p.lockout || exists c :: LastLock(done, c, s) && EndsIn(p, ts, c, s - 1, s)
  }

  /** After n failures those from s on were counted, and no lock is in force. */
  ghost predicate Counting(p: Policy, ts: seq<Time>, done: seq<bool>, n: nat, f: Failures)
    requires n <= |ts| && n <= |done|
  {
    var s := n - f.count;
    && f.lockedUntil == 0.0 && 0 <= s < n
    && (forall m | s <= m < n :: !done[m]) && (forall m | s < m < n :: ts[m] - ts[m - 1] <= p.lockout)
    && StartsAt(p, ts, done, s)
    && (forall c | LastLock(done, c, s) :: ts[c] + p.lockout <= ts[s])
  }

  /** What the entry says about the first n failures since the last success. */
  ghost predicate Tells(p: Policy, ts: seq<Time>, done: seq<bool>, n: nat, entry: Option<Failures>)
    requires n <= |ts| && n <= |done|
  {
    match entry
    case None => n == 0
    case Some(f) => n > 0 && f.lastFailure == ts[n - 1] && f.count < Allowed(p) && (Locked(p, ts, done, n, f) || Counting(p, ts, done, n, f))
  }

  // ----- A failure that does not complete a streak -----

  lemma EndedInside(p: Policy, ts: seq<Time>, done: seq<bool>, n: nat, s: nat, c: int)
    requires n < |ts| == |done| && s == n + 1 - Allowed(p)
    requires LastLock(done, c, s) && EndsIn(p, ts, c, s, n)
    ensures !Streak(p, ts, done, n)
  {
    assert !NoLockEnds(p, ts, done, s, n);
  }

  lemma CompletedInside(p: Policy, ts: seq<Time>, done: seq<bool>, n: nat, c: nat)
    requires n < |ts| == |done| && c < n && done[c] && n + 1 - Allowed(p) <= c
    ensures !Streak(p, ts, done, n)
  {}

  lemma GapInside(p: Policy, ts: seq<Time>, done: seq<bool>, n: nat, m: nat)
    requires n < |ts| == |done| && 0 < m <= n && n + 1 - Allowed(p) < m && ts[m] - ts[m - 1] > p.lockout
    ensures !Streak(p, ts, done, n)
  {}

  /** A lock in force, or just over, cuts off every streak that would be long enough. */
  lemma TooFewSinceLock(p: Policy, ts: seq<Time>, done: seq<bool>, n: nat, f: Failures)
    requires n < |ts| == |done| && Ascending(ts) && Locked(p, ts, done, n, f) && Allowed(p) > 1
    requires f.count + 1 < Allowed(p) || f.lockedUntil <= ts[n]
    ensures !Streak(p, ts, done, n)
  {
    var c, s := n - 1 - f.count, n + 1 - Allowed(p);
    if s > c {
      assert ts[s] <= ts[n - 1];
      EndedInside(p, ts, done, n, s, c);
    } else {
      CompletedInside(p, ts, done, n, c);
    }
  }

  lemma TooFewSinceStart(p: Policy, ts: seq<Time>, done: seq<bool>, n: nat, f: Failures)
    requires n < |ts| == |done| && Ascending(ts) && Counting(p, ts, done, n, f) && f.count + 1 < Allowed(p)
    ensures !Streak(p, ts, done, n)
  {
    var start, s := n - f.count, n + 1 - Allowed(p);
    if start == 0 {
    } else if ts[start] - ts[start - 1] > p.lockout {
      GapInside(p, ts, done, n, start);
    } else {
      var c :| LastLock(done, c, start) && EndsIn(p, ts, c, start - 1, start);
      if c < s {
        assert ts[s] <= ts[start - 1] && ts[start] <= ts[n];
        EndedInside(p, ts, done, n, s, c);
      } else {
        CompletedInside(p, ts, done, n, c);
      }
    }
  }

  // ----- One more failure -----

  /** Counting starts anew: with the first failure, after a gap, or after a lock. */
  predicate Reset(p: Policy, entry: Option<Failures>, now: Time) {
    entry.None? || (entry.value.lockedUntil != 0.0 && entry.value.lockedUntil <= now) || now - entry.value.lastFailure > p.lockout
  }

  lemma FullUnderLock(p: Policy, ts: seq<Time>, done: seq<bool>, n: nat, f: Failures)
    requires n < |ts| == |done| && Ascending(ts) && Locked(p, ts, done, n, f) && ts[n] < f.lockedUntil && f.count + 1 == Allowed(p)
    ensures Streak(p, ts, done, n)
  {
    var c, s := n - 1 - f.count, n + 1 - Allowed(p);
    assert s == c + 1;
    forall m | s < m <= n ensures ts[m] - ts[m - 1] <= p.lockout {
      assert ts[c] <= ts[m - 1] && ts[m] <= ts[n];
    }
  }

  lemma FullCount(p: Policy, ts: seq<Time>, done: seq<bool>, n: nat, f: Failures)
    requires n < |ts| == |done| && n > 0 && Ascending(ts) && Counting(p, ts, done, n, f) && ts[n] - ts[n - 1] <= p.lockout && f.count + 1 == Allowed(p)
    ensures Streak(p, ts, done, n)
  {
    var s := n - f.count;
    assert forall c | LastLock(done, c, s) :: !EndsIn(p, ts, c, s, n);
  }

  lemma FullAtOnce(p: Policy, ts: seq<Time>, done: seq<bool>, n: nat)
    requires n < |ts| == |done| && Allowed(p) == 1
    ensures Streak(p, ts, done, n)
  {}

  lemma NewLock(p: Policy, ts: seq<Time>, done: seq<bool>, n: nat)
    requires p.lockout > 0.0 && n < |ts| == |done| && done[n]
    ensures Locked(p, ts, done, n + 1, Failures(0, ts[n], ts[n] + p.lockout))
  {}

  lemma LockGoesOn(p: Policy, ts: seq<Time>, done: seq<bool>, n: nat, f: Failures)
    requires n < |ts| == |done| && Locked(p, ts, done, n, f) && ts[n] < f.lockedUntil && !done[n]
    ensures Locked(p, ts, done, n + 1, Failures(f.count + 1, ts[n], f.lockedUntil))
  {}

  lemma CountGoesOn(p: Policy, ts: seq<Time>, done: seq<bool>, n: nat, f: Failures)
    requires n < |ts| == |done| && n > 0 && Counting(p, ts, done, n, f) && ts[n] - ts[n - 1] <= p.lockout && !done[n]
    ensures Counting(p, ts, done, n + 1, Failures(f.count + 1, ts[n], 0.0))
  {}

  lemma CountStarts(p: Policy, ts: seq<Time>, done: seq<bool>, n: nat)
    requires n < |ts| == |done| && StartsAt(p, ts, done, n) && !done[n] && forall c | LastLock(done, c, n) :: ts[c] + p.lockout <= ts[n]
    ensures Counting(p, ts, done, n + 1, Failures(1, ts[n], 0.0))
  {}

  lemma LockedNext(p: Policy, ts: seq<Time>, done: seq<bool>, n: nat, f: Failures)
    requires p.lockout > 0.0 && n < |ts| == |done| && n > 0 && Ascending(ts) && f.count < Allowed(p)
    requires Locked(p, ts, done, n, f) && ts[n] < f.lockedUntil && !Reset(p, Some(f), ts[n])
    requires done[n] == Streak(p, ts, done, n)
    ensures Tells(p, ts, done, n + 1, Some(Count(p, Some(f), ts[n])))
  {
    if f.count + 1 >= p.threshold {
      FullUnderLock(p, ts, done, n, f);
      NewLock(p, ts, done, n);
    } else {
      TooFewSinceLock(p, ts, done, n, f);
      LockGoesOn(p, ts, done, n, f);
    }
  }

  lemma CountingNext(p: Policy, ts: seq<Time>, done: seq<bool>, n: nat, f: Failures)
    requires p.lockout > 0.0 && n < |ts| == |done| && n > 0 && Ascending(ts) && f.count < Allowed(p)
    requires Counting(p, ts, done, n, f) && ts[n] - ts[n - 1] <= p.lockout && !Reset(p, Some(f), ts[n])
    requires done[n] == Streak(p, ts, done, n)
    ensures Tells(p, ts, done, n + 1, Some(Count(p, Some(f), ts[n])))
  {
    if f.count + 1 >= p.threshold {
      FullCount(p, ts, done, n, f);
      NewLock(p, ts, done, n);
    } else {
      TooFewSinceStart(p, ts, done, n, f);
      CountGoesOn(p, ts, done, n, f);
    }
  }

  lemma ResetNext(p: Policy, ts: seq<Time>, done: seq<bool>, n: nat, entry: Option<Failures>)
    requires p.lockout > 0.0 && n < |ts| == |done| && Ascending(ts) && Tells(p, ts, done, n, entry) && Reset(p, entry, ts[n])
    requires done[n] == Streak(p, ts, done, n)
    ensures Tells(p, ts, done, n + 1, Some(Count(p, entry, ts[n])))
  {
    if p.threshold <= 1 {
      FullAtOnce(p, ts, done, n);
      NewLock(p, ts, done, n);
    } else {
      ResetStarts(p, ts, done, n, entry);
      CountStarts(p, ts, done, n);
    }
  }

  lemma ResetStarts(p: Policy, ts: seq<Time>, done: seq<bool>, n: nat, entry: Option<Failures>)
    requires p.lockout > 0.0 && n < |ts| == |done| && Ascending(ts) && Tells(p, ts, done, n, entry) && Reset(p, entry, ts[n]) && Allowed(p) > 1
    ensures !Streak(p, ts, done, n) && StartsAt(p, ts, done, n) && forall c | LastLock(done, c, n) :: ts[c] + p.lockout <= ts[n]
  {
    if entry.Some? && Locked(p, ts, done, n, entry.value) {
      TooFewSinceLock(p, ts, done, n, entry.value);
      assert EndsIn(p, ts, n - 1 - entry.value.count, n - 1, n);
    }
  }

  lemma FailureTells(p: Policy, ts: seq<Time>, done: seq<bool>, n: nat, entry: Option<Failures>)
    requires p.lockout > 0.0 && n < |ts| == |done| && Ascending(ts) && Tells(p, ts, done, n, entry)
    requires done[n] == Streak(p, ts, done, n)
    ensures Tells(p, ts, done, n + 1, Some(Count(p, entry, ts[n])))
  {
    if Reset(p, entry, ts[n]) {
      ResetNext(p, ts, done, n, entry);
    } else if Locked(p, ts, done, n, entry.value) {
      assert entry.value.lockedUntil > 0.0;
      LockedNext(p, ts, done, n, entry.value);
    } else {
      CountingNext(p, ts, done, n, entry.value);
    }
  }

  // ----- Over runs -----

  /** Which failures complete a streak. */
  ghost function Marks(p: Policy, ts: seq<Time>): (done: seq<bool>)
    ensures |done| == |ts|
  {
    if ts == [] then [] else Marks(p, ts[..|ts| - 1]) + [Streak(p, ts, Marks(p, ts[..|ts| - 1]), |ts| - 1)]
  }

  ghost predicate Completes(p: Policy, ts: seq<Time>, i: int)
    requires 0 <= i < |ts|
  {
    Marks(p, ts)[i]
  }

  lemma StreakOfPrefix(p: Policy, ts: seq<Time>, done: seq<bool>, us: seq<Time>, more: seq<bool>, i: nat)
    requires i < |ts| == |done| && ts <= us && done <= more && |us| == |more|
    ensures Streak(p, ts, done, i) == Streak(p, us, more, i)
  {
    var s := i + 1 - Allowed(p);
    if s >= 0 {
      assert forall c :: LastLock(done, c, s) <==> LastLock(more, c, s);
    }
  }

  /** The marks follow the rule. */
  lemma {:induction false} MarksAreStreaks(p: Policy, ts: seq<Time>)
    ensures forall i | 0 <= i < |ts| :: Marks(p, ts)[i] == Streak(p, ts, Marks(p, ts), i)
  {
    if ts != [] {
      var before, n := ts[..|ts| - 1], |ts| - 1;
      var done, more := Marks(p, before), Marks(p, ts);
      MarksAreStreaks(p, before);
      forall i | 0 <= i < |ts| ensures more[i] == Streak(p, ts, more, i) {
        if i < n {
          StreakOfPrefix(p, before, done, ts, more, i);
        } else {
          LastStreak(p, ts, done, more);
        }
      }
    }
  }

  lemma LastStreak(p: Policy, ts: seq<Time>, done: seq<bool>, more: seq<bool>)
    requires |ts| == |done| + 1 == |more| && done <= more
    ensures Streak(p, ts, done, |done|) == Streak(p, ts, more, |done|)
  {
    var s := |done| + 1 - Allowed(p);
    if s >= 0 {
      assert forall c :: LastLock(done, c, s) <==> LastLock(more, c, s);
    }
  }

  lemma {:induction false} SinceAscends(trace: seq<Event>, who: Who, now: Time)
    requires Monotone(trace) && (trace != [] ==> trace[|trace| - 1].at <= now)
    ensures Ascending(Since(trace, who)) && (Since(trace, who) != [] ==> Since(trace, who)[|Since(trace, who)| - 1] <= now)
  {
    if trace != [] {
      SinceAscends(trace[..|trace| - 1], who, trace[|trace| - 1].at);
    }
  }

  lemma {:induction false} RunTells(p: Policy, trace: seq<Event>, who: Who, all: seq<Time>, done: seq<bool>)
    requires p.lockout > 0.0 && Ascending(all) && Since(trace, who) <= all && |done| == |all|
    requires forall i | 0 <= i < |all| :: done[i] == Streak(p, all, done, i)
    ensures Tells(p, all, done, |Since(trace, who)|, EntryOf(Run(p, None, trace), who))
  {
    if trace != [] {
      var before, e := trace[..|trace| - 1], trace[|trace| - 1];
      if e.who != who {
        RunTells(p, before, who, all, done);
        assert EntryOf(Run(p, None, trace), who) == EntryOf(Run(p, None, before), who);
      } else if e.Failure? {
        var n := |Since(before, who)|;
        assert all[n] == Since(trace, who)[n] == e.at;
        RunTells(p, before, who, all, done);
        FailureTells(p, all, done, n, EntryOf(Run(p, None, before), who));
      }
    }
  }

  lemma {:induction false} LatestMark(done: seq<bool>, i: nat, end: nat) returns (c: nat)
    requires i < end <= |done| && done[i]
    ensures i <= c && LastLock(done, c, end)
    decreases end
  {
    if done[end - 1] {
      c := end - 1;
    } else {
      c := LatestMark(done, i, end - 1);
    }
  }

  /** The entry is locked exactly while the lock of a completed streak lasts. */
  lemma TellsTheLock(p: Policy, ts: seq<Time>, done: seq<bool>, entry: Option<Failures>, now: Time)
    requires |ts| == |done| && Ascending(ts) && (ts != [] ==> ts[|ts| - 1] <= now) && Tells(p, ts, done, |ts|, entry)
    ensures entry.Some? && entry.value.lockedUntil > now <==> exists i :: 0 <= i < |ts| && done[i] && now < ts[i] + p.lockout
  {
    if i :| 0 <= i < |ts| && done[i] && now < ts[i] + p.lockout {
      var f := entry.value;
      if Locked(p, ts, done, |ts|, f) {
        assert ts[i] <= ts[|ts| - 1 - f.count];
      } else {
        var c := LatestMark(done, i, |ts| - f.count);
      }
    }
  }

  lemma {:induction false} NoLockWithoutLockout(p: Policy, trace: seq<Event>, who: Who, now: Time)
    requires p.lockout == 0.0 && Monotone(trace) && (trace != [] ==> trace[|trace| - 1].at <= now)
    ensures EntryOf(Run(p, None, trace), who).Some? ==> EntryOf(Run(p, None, trace), who).value.lockedUntil <= now
  {
    if trace != [] {
      NoLockWithoutLockout(p, trace[..|trace| - 1], who, trace[|trace| - 1].at);
    }
  }

  /** Main theorem: over any run, pruned or not, `retry_after` answers a delay exactly when some failure
      since the last success completed a streak less than `lockout` ago. */
  lemma LockFollowsTheRule(p: Policy, limit: Option<nat>, trace: seq<Event>, who: Who, now: Time)
    requires Monotone(trace) && (trace != [] ==> trace[|trace| - 1].at <= now)
    ensures RetryAfter(Run(p, limit, trace), who, now) > 0 <==>
            exists i | 0 <= i < |Since(trace, who)| :: Completes(p, Since(trace, who), i) && now < Since(trace, who)[i] + p.lockout
  {
    var ts, entry := Since(trace, who), EntryOf(Run(p, None, trace), who);
    var done := Marks(p, ts);
    PruningIsInvisible(p, limit, trace, who, now);
    SinceAscends(trace, who, now);
    if p.lockout > 0.0 {
      MarksAreStreaks(p, ts);
      RunTells(p, trace, who, ts, done);
      TellsTheLock(p, ts, done, entry, now);
    } else {
      NoLockWithoutLockout(p, trace, who, now);
    }
  }

  /** Which failures complete a streak, by the failures before them. */
  lemma CompletesExactly(p: Policy, ts: seq<Time>, i: nat)
    requires i < |ts|
    ensures
      var s := i + 1 - Allowed(p);
      Completes(p, ts, i) <==>
      && s >= 0
      && (forall m | s < m <= i :: ts[m] - ts[m - 1] <= p.lockout)
      && (forall m | s <= m < i :: !Completes(p, ts, m))
      && (forall c | 0 <= c < s && Completes(p, ts, c) && (forall m | c < m < s :: !Completes(p, ts, m)) :: !EndsIn(p, ts, c, s, i))
  {
    var done, s := Marks(p, ts), i + 1 - Allowed(p);
    MarksAreStreaks(p, ts);
    assert forall m | 0 <= m < |ts| :: Completes(p, ts, m) == done[m];
    if s >= 0 {
      forall c | 0 <= c < s ensures LastLock(done, c, s) <==> Completes(p, ts, c) && forall m | c < m < s :: !Completes(p, ts, m) {
        assert (forall m | c < m < s :: !Completes(p, ts, m)) <==> forall m | c < m < s :: !done[m];
      }
    }
  }
}
