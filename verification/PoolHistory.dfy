/** What the state of the capture pool (gui/captures.py) says about the run that led to it. */
module PoolHistory {
  import opened Wrappers
  import opened Seqs
  import opened CapturePool

  function One(b: bool): nat {
    if b then 1 else 0
  }

  predicate Is(p: Pool, i: nat, s: TaskState) {
    i < |p.tasks| && p.tasks[i].state == s
  }

  /** Task i has a slot, or had one. */
  predicate Admitted(p: Pool, i: nat) {
    i < |p.tasks| && !p.tasks[i].worker.Waiting?
  }

  predicate Begun(p: Pool, i: nat) {
    i < |p.tasks| && p.tasks[i].state != Queued
  }

  predicate Left(p: Pool, i: nat) {
    i < |p.tasks| && p.tasks[i].worker.Gone?
  }

  /** How much more often each event of task i, and of the run `name`, has happened in q than in p. */
  ghost predicate Counts(p: Pool, q: Pool, events: multiset<Action>, i: nat, name: string) {
    && One(Admitted(q, i)) == One(Admitted(p, i)) + events[Acquire(i)]
    && One(Begun(q, i)) == One(Begun(p, i)) + events[Begin(i)]
    && One(Is(q, i, Done)) == One(Is(p, i, Done)) + events[Finish(i, true)]
    && One(Is(q, i, Failed)) == One(Is(p, i, Failed)) + events[Finish(i, false)]
    && One(Left(q, i)) == One(Left(p, i)) + events[Release(i)]
    && One(name in q.maintenance) + events[ExitMaintenance(name)] == One(name in p.maintenance) + events[EnterMaintenance(name)]
  }

  lemma StepCounts(p: Pool, a: Action, i: nat, name: string)
    requires Inv(p) && Enabled(p, a)
    ensures Counts(p, Do(p, a), multiset{a}, i, name)
  {
    assert i < |p.tasks| ==> Coherent(p.tasks[i]);
  }

  lemma {:induction false} RunCounts(p: Pool, run: seq<Action>, i: nat, name: string)
    requires Inv(p) && Executable(p, run)
    ensures Counts(p, Exec(p, run), multiset(run), i, name)
    decreases |run|
  {
    if run != [] {
      StepCounts(p, run[0], i, name);
      StepKeepsInv(p, run[0]);
      RunCounts(Do(p, run[0]), run[1..], i, name);
      assert run == [run[0]] + run[1..];
      assert multiset(run) == multiset{run[0]} + multiset(run[1..]);
    }
  }

  /** Main theorem: over every run, a task is Done exactly when its capture returned, Failed exactly when
      it raised, Running exactly between its begin and its end, and none of its events happens twice; a
      run is under maintenance exactly when it was entered once more than left. */
  lemma StateTellsTheRun(size: nat, run: seq<Action>, i: nat, name: string)
    requires Executable(Empty(size), run)
    ensures
      var p, events := Exec(Empty(size), run), multiset(run);
      && (Is(p, i, Done) <==> Finish(i, true) in run)
      && (Is(p, i, Failed) <==> Finish(i, false) in run)
      && (Is(p, i, Running) <==> Begin(i) in run && Finish(i, true) !in run && Finish(i, false) !in run)
      && (Is(p, i, Queued) <==> i < |p.tasks| && Begin(i) !in run)
      && events[Acquire(i)] <= 1 && events[Begin(i)] <= 1 && events[Finish(i, true)] + events[Finish(i, false)] <= 1
      && (name in p.maintenance <==> events[EnterMaintenance(name)] == events[ExitMaintenance(name)] + 1)
  {
    RunCounts(Empty(size), run, i, name);
    RunKeepsInv(Empty(size), run);
    var p := Exec(Empty(size), run);
    assert i < |p.tasks| ==> Coherent(p.tasks[i]);
    assert forall a :: a in run <==> multiset(run)[a] > 0;
  }

  /** The events of a task come in their order, in every run and so in each of its beginnings. */
  lemma EventsInOrder(size: nat, run: seq<Action>, i: nat)
    requires Executable(Empty(size), run)
    ensures
      var events := multiset(run);
      var ended := events[Finish(i, true)] + events[Finish(i, false)];
      && 1 >= events[Acquire(i)] >= events[Begin(i)] >= ended >= events[Release(i)]
      && (var p := Exec(Empty(size), run); i < |p.tasks| ==>
            (Holds(p.tasks[i]) <==> events[Acquire(i)] == 1 && events[Release(i)] == 0))
  {
    RunCounts(Empty(size), run, i, "");
    RunKeepsInv(Empty(size), run);
    var p := Exec(Empty(size), run);
    assert i < |p.tasks| ==> Coherent(p.tasks[i]);
  }

  // ----- Which tasks there are -----

  /** Run, device, port and phase. */
  type Identity = (string, string, Option<string>, string)

  function AskedBy(a: Action): seq<Identity> {
    if a.Start? then [(a.run, a.device, a.port, a.phase)] else []
  }

  /** What the accepted starts asked for, in their order. */
  function Asked(run: seq<Action>): seq<Identity> {
    if run == [] then [] else AskedBy(run[0]) + Asked(run[1..])
  }

  function Identities(tasks: seq<Task>): seq<Identity> {
    Map(tasks, (t: Task) => (t.run, t.device, t.port, t.phase))
  }

  lemma StepKeepsIdentities(p: Pool, a: Action)
    requires Enabled(p, a)
    ensures Identities(Do(p, a).tasks) == Identities(p.tasks) + AskedBy(a)
  {}

  /** The tasks are the accepted starts, in their order, whatever happened to them since. */
  lemma {:induction false} TasksAreTheStarts(p: Pool, run: seq<Action>)
    requires Executable(p, run)
    ensures Identities(Exec(p, run).tasks) == Identities(p.tasks) + Asked(run)
    decreases |run|
  {
    if run != [] {
      var d := Do(p, run[0]);
      StepKeepsIdentities(p, run[0]);
      TasksAreTheStarts(d, run[1..]);
      assert Exec(p, run) == Exec(d, run[1..]);
      Rejoined(Identities(p.tasks), AskedBy(run[0]), Asked(run[1..]));
    }
  }

  lemma Rejoined(a: seq<Identity>, b: seq<Identity>, c: seq<Identity>)
    ensures (a + b) + c == a + (b + c)
  {}

  // ----- The progress lines -----

  /** The latest line of a collector. */
  function Line(steps: seq<Entry>, collector: string): Option<Entry> {
    if steps == [] then None
    else if steps[|steps| - 1].collector == collector then Some(steps[|steps| - 1])
    else Line(steps[..|steps| - 1], collector)
  }

  lemma LineSnoc(steps: seq<Entry>, e: Entry, collector: string)
    ensures Line(steps + [e], collector) == if e.collector == collector then Some(e) else Line(steps, collector)
  {
    assert (steps + [e])[..|steps|] == steps;
  }

  lemma {:induction false} RewriteLine(steps: seq<Entry>, e: Entry, collector: string)
    ensures |Rewrite(steps, e)| == |steps|
    ensures Line(Rewrite(steps, e), collector) ==
            if collector == e.collector && Line(steps, collector).Some? then Some(e) else Line(steps, collector)
  {
    if steps != [] {
      var before, last := steps[..|steps| - 1], steps[|steps| - 1];
      if last.collector == e.collector {
        assert steps[|steps| - 1 := e] == before + [e] && steps == before + [last];
        LineSnoc(before, e, collector);
      } else {
        RewriteLine(before, e, collector);
        LineSnoc(Rewrite(before, e), last, collector);
      }
    }
  }

  /** A report sets the latest line of its collector and no other: "start" opens a line that says
      "running", any other status needs one to be there. */
  lemma ReportSetsTheLine(p: Pool, i: nat, collector: string, status: string, message: Option<string>, other: string)
    requires Enabled(p, Report(i, collector, status, message))
    ensures
      var was, now := p.tasks[i].steps, Do(p, Report(i, collector, status, message)).tasks[i].steps;
      && |now| == |was| + (if status == "start" then 1 else 0)
      && Line(now, other) ==
         (if other != collector then Line(was, other)
          else if status == "start" then Some(Entry(collector, "running", message))
          else if Line(was, collector).Some? then Some(Entry(collector, status, message))
          else None)
  {
    var was := p.tasks[i].steps;
    if status == "start" {
      LineSnoc(was, Entry(collector, "running", message), other);
    } else {
      RewriteLine(was, Entry(collector, status, message), other);
    }
  }
}
