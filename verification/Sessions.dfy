/** Login sessions of gui/sessions.py (SessionStore): idle and absolute expiry, with a sweep of
expired sessions inside `create`.  Times are readings of a monotone clock. */
module Sessions {
  import opened Wrappers

  datatype Record = Record(username: string, passwordHash: Option<string>, createdAt: real, lastSeen: real)

  datatype Limits = Limits(idle: real, absolute: real)

  type Store = map<string, Record>

  predicate Expired(l: Limits, r: Record, now: real) {
    now - r.lastSeen > l.idle || now - r.createdAt > l.absolute
  }

  /** One call with the clock reading it took.  `sweep` says whether a creation removes expired
      sessions, as the code does, or leaves them. */
  datatype Event =
    | Create(token: string, username: string, passwordHash: Option<string>, at: real, sweep: bool)
    | Lookup(token: string, at: real)
    | Drop(token: string, at: real)

  function Sweep(l: Limits, s: Store, now: real): Store {
    map k | k in s && !Expired(l, s[k], now) :: s[k]
  }

  /** The answer of a lookup. */
  function Found(l: Limits, s: Store, token: string, now: real): Option<Record> {
    if token in s && !Expired(l, s[token], now) then Some(s[token].(lastSeen := now)) else None
  }

  function Apply(l: Limits, s: Store, e: Event): Store {
    match e
    case Create(token, user, hash, at, sweep) =>
      (if sweep then Sweep(l, s, at) else s)[token := Record(user, hash, at, at)]
    case Lookup(token, at) =>
      var found := Found(l, s, token, at);
      if found.Some? then s[token := found.value] else s - {token}
    case Drop(token, _) => s - {token}
  }

  function Run(l: Limits, trace: seq<Event>): Store {
    if trace == [] then map[] else Apply(l, Run(l, trace[..|trace| - 1]), trace[|trace| - 1])
  }

  class SessionStore {
    const limits: Limits
    var sessions: Store

    constructor (idle: real, absolute: real)
      ensures limits == Limits(idle, absolute) && sessions == map[]
    {
      limits := Limits(idle, absolute);
      sessions := map[];
    }

    method Create(token: string, username: string, passwordHash: Option<string>, now: real)
      modifies this
      ensures sessions == Apply(limits, old(sessions), Event.Create(token, username, passwordHash, now, true))
    {
      var expired := set k | k in sessions && Expired(limits, sessions[k], now);
      var todo := expired;
      while todo != {}
        invariant todo <= expired
        invariant sessions == map k | k in old(sessions) && k !in expired - todo :: old(sessions)[k]
        decreases todo
      {
        var k :| k in todo;
        sessions := sessions - {k};
        todo := todo - {k};
      }
      assert sessions == Sweep(limits, old(sessions), now);
      sessions := sessions[token := Record(username, passwordHash, now, now)];
    }

    method Lookup(token: string, now: real) returns (r: Option<Record>)
      modifies this
      ensures r == Found(limits, old(sessions), token, now)
      ensures sessions == Apply(limits, old(sessions), Event.Lookup(token, now))
    {
      if token !in sessions {
        assert sessions - {token} == sessions;
        return None;
      }
      var session := sessions[token];
      if Expired(limits, session, now) {
        sessions := sessions - {token};
        return None;
      }
      sessions := sessions[token := session.(lastSeen := now)];
      r := Some(sessions[token]);
    }

    method Drop(token: string, now: real)
      modifies this
      ensures sessions == Apply(limits, old(sessions), Event.Drop(token, now))
    {
      sessions := sessions - {token};
    }
  }

  // ----- The meaning of a trace, without any store -----

  /** Clock readings never go back, and a token is created at most once. */
  ghost predicate Plausible(trace: seq<Event>) {
    && (forall i, j | 0 <= i < j < |trace| :: trace[i].at <= trace[j].at)
    && (forall i, j | 0 <= i < j < |trace| && trace[i].Create? && trace[j].Create? :: trace[i].token != trace[j].token)
  }

  /** The creation at position c is the token's, and it was never dropped afterwards. */
  ghost predicate LiveCreation(trace: seq<Event>, token: string, c: int) {
    && 0 <= c < |trace| && trace[c].Create? && trace[c].token == token
    && forall j | c < j < |trace| :: !(trace[j].Drop? && trace[j].token == token)
  }

  /** A lookup at `now` succeeds: the token was created, was not dropped since, is at most
      `absolute` old, and at most `idle` past its last successful lookup or creation. */
  ghost predicate Succeeds(l: Limits, trace: seq<Event>, token: string, now: real)
    decreases |trace|, 1
  {
    exists c :: LiveCreation(trace, token, c) && now - trace[c].at <= l.absolute &&
                Touched(l, trace, token).Some? && now - Touched(l, trace, token).value <= l.idle
  }

  /** When the token was last created or successfully looked up, judged by the rule alone. */
  ghost function Touched(l: Limits, trace: seq<Event>, token: string): Option<real>
    decreases |trace|, 0
  {
    if trace == [] then None
    else
      var before, e := trace[..|trace| - 1], trace[|trace| - 1];
      if e.token == token && (e.Create? || (e.Lookup? && Succeeds(l, before, token, e.at))) then Some(e.at)
      else Touched(l, before, token)
  }

  function Now(trace: seq<Event>): real
    requires trace != []
  {
    trace[|trace| - 1].at
  }

  /** What the store knows about one token.  An absent token is one whose every live creation has
      already expired, so removing it early could not be noticed. */
  ghost predicate Matches(l: Limits, trace: seq<Event>, token: string, s: Store) {
    var touched := Touched(l, trace, token);
    if token in s then
      exists c :: LiveCreation(trace, token, c) && touched.Some? &&
                  s[token] == Record(trace[c].username, trace[c].passwordHash, trace[c].at, touched.value)
    else
      forall c :: LiveCreation(trace, token, c) ==>
        touched.Some? && (Now(trace) - touched.value > l.idle || Now(trace) - trace[c].at > l.absolute)
  }

  /** The store's answer agrees with the rule. */
  lemma FoundIffSucceeds(l: Limits, trace: seq<Event>, token: string, now: real, s: Store)
    requires Plausible(trace) && Matches(l, trace, token, s)
    requires trace != [] ==> Now(trace) <= now
    ensures Found(l, s, token, now).Some? <==> Succeeds(l, trace, token, now)
    ensures forall c | LiveCreation(trace, token, c) && Succeeds(l, trace, token, now) ::
              Found(l, s, token, now) == Some(Record(trace[c].username, trace[c].passwordHash, trace[c].at, now))
  {}

  lemma StepMatches(l: Limits, before: seq<Event>, e: Event, token: string, s: Store)
    requires Plausible(before + [e]) && Matches(l, before, token, s)
    ensures Matches(l, before + [e], token, Apply(l, s, e))
  {}

  lemma {:induction false} RunMatches(l: Limits, trace: seq<Event>, token: string)
    requires Plausible(trace)
    ensures Matches(l, trace, token, Run(l, trace))
  {
    if trace != [] {
      var before := trace[..|trace| - 1];
      RunMatches(l, before, token);
      assert before + [trace[|trace| - 1]] == trace;
      StepMatches(l, before, trace[|trace| - 1], token, Run(l, before));
    }
  }

  /** Main theorem: over any run, a lookup answers exactly by the expiry rule, with the account the
      token was created for. */
  lemma LookupFollowsTheRule(l: Limits, trace: seq<Event>, token: string, now: real)
    requires Plausible(trace) && (trace != [] ==> Now(trace) <= now)
    ensures Found(l, Run(l, trace), token, now).Some? <==> Succeeds(l, trace, token, now)
    ensures forall c | LiveCreation(trace, token, c) && Succeeds(l, trace, token, now) ::
              Found(l, Run(l, trace), token, now) == Some(Record(trace[c].username, trace[c].passwordHash, trace[c].at, now))
  {
    RunMatches(l, trace, token);
    FoundIffSucceeds(l, trace, token, now, Run(l, trace));
  }

  /** Two traces that differ only in which creations sweep. */
  ghost predicate SameButSweeps(a: seq<Event>, b: seq<Event>) {
    |a| == |b| && forall i | 0 <= i < |a| ::
      a[i] == b[i] || (a[i].Create? && b[i].Create? && a[i].(sweep := true) == b[i].(sweep := true))
  }

  lemma {:induction false} RuleIgnoresSweeps(l: Limits, a: seq<Event>, b: seq<Event>, token: string)
    requires SameButSweeps(a, b)
    ensures Touched(l, a, token) == Touched(l, b, token)
    ensures forall c :: LiveCreation(a, token, c) <==> LiveCreation(b, token, c)
    ensures forall now :: Succeeds(l, a, token, now) <==> Succeeds(l, b, token, now)
  {
    if a != [] {
      RuleIgnoresSweeps(l, a[..|a| - 1], b[..|b| - 1], token);
    }
    assert forall c :: LiveCreation(a, token, c) <==> LiveCreation(b, token, c);
    assert Touched(l, a, token) == Touched(l, b, token);
  }

  /** The sweep inside `create` changes no later answer. */
  lemma SweepIsInvisible(l: Limits, a: seq<Event>, b: seq<Event>, token: string, now: real)
    requires Plausible(a) && SameButSweeps(a, b) && (a != [] ==> Now(a) <= now)
    ensures Found(l, Run(l, a), token, now) == Found(l, Run(l, b), token, now)
  {
    RuleIgnoresSweeps(l, a, b, token);
    LookupFollowsTheRule(l, a, token, now);
    LookupFollowsTheRule(l, b, token, now);
    if Succeeds(l, a, token, now) {
      var c :| LiveCreation(a, token, c);
      assert LiveCreation(b, token, c);
    }
  }

  /** Readings in the order of the calls are needed: after a creation that read a later time, a
      lookup with an earlier reading sees the sweep, when the session was expired for the one and
      not yet for the other. */
  lemma EarlierReadingSeesTheSweep(l: Limits, s: Store, token: string, e: Event, earlier: real)
    requires e.Create? && e.token != token && token in s
    ensures Found(l, Apply(l, s, e.(sweep := true)), token, earlier) != Found(l, Apply(l, s, e.(sweep := false)), token, earlier) <==>
            Expired(l, s[token], e.at) && !Expired(l, s[token], earlier)
  {}
}
