/** The capture pool of gui/captures.py: a lock, a counting semaphore, one worker thread per task
and a per-run maintenance flag.

Every section under the lock, and every semaphore operation, is one atomic action on the pool.
`CaptureManager` performs them; the theorems speak about all sequences of such actions. */
module CapturePool {
  import opened Wrappers

  datatype TaskState = Queued | Running | Done | Failed

  /** Where the worker thread of a task stands relative to its slot. */
  datatype Worker = Waiting | Holding | Working | Ending | Gone

  datatype Entry = Entry(collector: string, status: string, message: Option<string>)

  datatype Task = Task(run: string, device: string, port: Option<string>, phase: string,
                       state: TaskState, worker: Worker, steps: seq<Entry>)

  /** Tasks in insertion order; a task is never removed, so its position identifies it. */
  datatype Pool = Pool(size: nat, free: nat, tasks: seq<Task>, maintenance: set<string>)

  datatype Action =
    | Start(run: string, device: string, port: Option<string>, phase: string)
    | Acquire(i: nat) | Begin(i: nat) | Finish(i: nat, ok: bool) | Release(i: nat)
    | Report(i: nat, collector: string, status: string, message: Option<string>)
    | EnterMaintenance(name: string) | ExitMaintenance(name: string)

  predicate Active(t: Task) {
    t.state.Queued? || t.state.Running?
  }

  predicate Enabled(p: Pool, a: Action) {
    match a
    case Start(run, device, _, _) =>
      run !in p.maintenance && forall i | 0 <= i < |p.tasks| :: p.tasks[i].device == device ==> !Active(p.tasks[i])
    case Acquire(i) => i < |p.tasks| && p.tasks[i].worker.Waiting? && p.free > 0
    case Begin(i) => i < |p.tasks| && p.tasks[i].worker.Holding?
    case Finish(i, _) => i < |p.tasks| && p.tasks[i].worker.Working?
    case Release(i) => i < |p.tasks| && p.tasks[i].worker.Ending?
    case Report(i, _, _, _) => i < |p.tasks| && p.tasks[i].worker.Working?
    case EnterMaintenance(run) =>
      run !in p.maintenance && forall i | 0 <= i < |p.tasks| :: p.tasks[i].run == run ==> !Active(p.tasks[i])
    case ExitMaintenance(run) => run in p.maintenance
  }

  function Do(p: Pool, a: Action): Pool
    requires Enabled(p, a)
  {
    match a
    case Start(run, device, port, phase) =>
      p.(tasks := p.tasks + [Task(run, device, port, phase, Queued, Waiting, [])])
    case Acquire(i) => p.(free := p.free - 1, tasks := p.tasks[i := p.tasks[i].(worker := Holding)])
    case Begin(i) => p.(tasks := p.tasks[i := p.tasks[i].(worker := Working, state := Running)])
    case Finish(i, ok) => p.(tasks := p.tasks[i := p.tasks[i].(worker := Ending, state := if ok then Done else Failed)])
    case Release(i) => p.(free := p.free + 1, tasks := p.tasks[i := p.tasks[i].(worker := Gone)])
    case Report(i, collector, status, message) =>
      p.(tasks := p.tasks[i := p.tasks[i].(steps := Progress(p.tasks[i].steps, Entry(collector, status, message)))])
    case EnterMaintenance(run) => p.(maintenance := p.maintenance + {run})
    case ExitMaintenance(run) => p.(maintenance := p.maintenance - {run})
  }

  /** "start" opens a new line; any other status rewrites the latest line of that collector. */
  function Progress(steps: seq<Entry>, e: Entry): seq<Entry> {
    if e.status == "start" then steps + [e.(status := "running")] else Rewrite(steps, e)
  }

  function Rewrite(steps: seq<Entry>, e: Entry): seq<Entry> {
    if steps == [] then []
    else if steps[|steps| - 1].collector == e.collector then steps[|steps| - 1 := e]
    else Rewrite(steps[..|steps| - 1], e) + [steps[|steps| - 1]]
  }

  predicate Executable(p: Pool, run: seq<Action>)
    decreases |run|
  {
    run == [] || (Enabled(p, run[0]) && Executable(Do(p, run[0]), run[1..]))
  }

  function Exec(p: Pool, run: seq<Action>): Pool
    requires Executable(p, run)
    decreases |run|
  {
    if run == [] then p else Exec(Do(p, run[0]), run[1..])
  }

  function Empty(size: nat): Pool {
    Pool(size, size, [], {})
  }

  // ----- Safety -----

  predicate Holds(t: Task) {
    t.worker.Holding? || t.worker.Working? || t.worker.Ending?
  }

  function Count(tasks: seq<Task>, p: Task -> bool): nat {
    if tasks == [] then 0 else Count(tasks[..|tasks| - 1], p) + if p(tasks[|tasks| - 1]) then 1 else 0
  }

  /** The task's public state agrees with where its worker stands. */
  predicate Coherent(t: Task) {
    match t.worker
    case Waiting => t.state.Queued?
    case Holding => t.state.Queued?
    case Working => t.state.Running?
    case Ending => !Active(t)
    case Gone => !Active(t)
  }

  ghost predicate Inv(p: Pool) {
    && p.free + Count(p.tasks, Holds) == p.size
    && (forall i | 0 <= i < |p.tasks| :: Coherent(p.tasks[i]))
    && (forall i, j | 0 <= i < j < |p.tasks| && Active(p.tasks[i]) && Active(p.tasks[j]) :: p.tasks[i].device != p.tasks[j].device)
    && (forall i | 0 <= i < |p.tasks| && Active(p.tasks[i]) :: p.tasks[i].run !in p.maintenance)
  }

  lemma {:induction false} CountUpdate(tasks: seq<Task>, p: Task -> bool, i: nat, t: Task)
    requires i < |tasks|
    ensures Count(tasks[i := t], p) == Count(tasks, p) - (if p(tasks[i]) then 1 else 0) + if p(t) then 1 else 0
  {
    var n := |tasks| - 1;
    if i < n {
      CountUpdate(tasks[..n], p, i, t);
      assert tasks[i := t][..n] == tasks[..n][i := t];
    } else {
      assert tasks[i := t][..n] == tasks[..n];
    }
  }

  lemma {:induction false} CountMonotone(tasks: seq<Task>, p: Task -> bool, q: Task -> bool)
    requires forall i | 0 <= i < |tasks| :: p(tasks[i]) ==> q(tasks[i])
    ensures Count(tasks, p) <= Count(tasks, q)
  {
    if tasks != [] {
      CountMonotone(tasks[..|tasks| - 1], p, q);
    }
  }

  /** One task changes without becoming active again, and the free slots follow its slot. */
  lemma TaskChangeKeepsInv(p: Pool, i: nat, t: Task, free: nat)
    requires Inv(p) && i < |p.tasks| && Coherent(t)
    requires t.run == p.tasks[i].run && t.device == p.tasks[i].device
    requires Active(t) ==> Active(p.tasks[i])
    requires free + (if Holds(t) then 1 else 0) == p.free + if Holds(p.tasks[i]) then 1 else 0
    ensures Inv(p.(tasks := p.tasks[i := t], free := free))
  {
    CountUpdate(p.tasks, Holds, i, t);
  }

  lemma StartKeepsInv(p: Pool, t: Task)
    requires Inv(p) && t.state.Queued? && t.worker.Waiting? && t.run !in p.maintenance
    requires forall i | 0 <= i < |p.tasks| :: p.tasks[i].device == t.device ==> !Active(p.tasks[i])
    ensures Inv(p.(tasks := p.tasks + [t]))
  {
    assert (p.tasks + [t])[..|p.tasks|] == p.tasks;
  }

  lemma StepKeepsInv(p: Pool, a: Action)
    requires Inv(p) && Enabled(p, a)
    ensures Inv(Do(p, a))
  {
    var q := Do(p, a);
    if a.Start? {
      StartKeepsInv(p, q.tasks[|p.tasks|]);
    } else if WorkerAction(a) || a.Report? {
      assert Coherent(p.tasks[a.i]);
      TaskChangeKeepsInv(p, a.i, q.tasks[a.i], q.free);
    }
  }

  lemma {:induction false} RunKeepsInv(p: Pool, run: seq<Action>)
    requires Inv(p) && Executable(p, run)
    ensures Inv(Exec(p, run)) && Exec(p, run).size == p.size
    decreases |run|
  {
    if run != [] {
      StepKeepsInv(p, run[0]);
      RunKeepsInv(Do(p, run[0]), run[1..]);
    }
  }

  /** Safety in every reachable state. */
  lemma PoolSafety(size: nat, run: seq<Action>)
    requires Executable(Empty(size), run)
    ensures
      var p := Exec(Empty(size), run);
      && Count(p.tasks, (t: Task) => t.state.Running?) <= Count(p.tasks, Holds) <= size
      && p.free + Count(p.tasks, Holds) == size
      && (forall i, j | 0 <= i < j < |p.tasks| && Active(p.tasks[i]) && Active(p.tasks[j]) ::
            p.tasks[i].device != p.tasks[j].device)
      && (forall i | 0 <= i < |p.tasks| && p.tasks[i].run in p.maintenance :: !Active(p.tasks[i]))
  {
    RunKeepsInv(Empty(size), run);
    var p := Exec(Empty(size), run);
    CountMonotone(p.tasks, (t: Task) => t.state.Running?, Holds);
  }

  // ----- Tasks only move forward -----

  function Rank(s: TaskState): nat {
    match s case Queued => 0 case Running => 1 case Done => 2 case Failed => 2
  }

  ghost predicate Forward(p: Pool, q: Pool) {
    && |p.tasks| <= |q.tasks|
    && forall i | 0 <= i < |p.tasks| ::
         var t, u := p.tasks[i], q.tasks[i];
         && (u.run, u.device, u.port, u.phase) == (t.run, t.device, t.port, t.phase)
         && Rank(t.state) <= Rank(u.state)
         && (!Active(t) ==> u.state == t.state)
         && |t.steps| <= |u.steps|
  }

  lemma {:induction false} RewriteKeepsLength(steps: seq<Entry>, e: Entry)
    ensures |Rewrite(steps, e)| == |steps|
  {
    if steps != [] {
      RewriteKeepsLength(steps[..|steps| - 1], e);
    }
  }

  /** From any reachable state on, no task is lost, changes identity, steps back or leaves a final
      state. */
  lemma {:induction false} TasksMoveForward(p: Pool, run: seq<Action>)
    requires Inv(p) && Executable(p, run)
    ensures Forward(p, Exec(p, run))
    decreases |run|
  {
    if run != [] {
      var q := Do(p, run[0]);
      if run[0].Report? {
        RewriteKeepsLength(p.tasks[run[0].i].steps, Entry(run[0].collector, run[0].status, run[0].message));
      }
      assert Forward(p, q) by {
        assert forall i | 0 <= i < |p.tasks| :: Coherent(p.tasks[i]);
      }
      StepKeepsInv(p, run[0]);
      TasksMoveForward(q, run[1..]);
    }
  }

  // ----- Progress -----

  predicate WorkerAction(a: Action) {
    a.Acquire? || a.Begin? || a.Finish? || a.Release?
  }

  function Left(w: Worker): nat {
    match w case Waiting => 4 case Holding => 3 case Working => 2 case Ending => 1 case Gone => 0
  }

  /** Worker steps still to come over all tasks. */
  function WorkLeft(tasks: seq<Task>): nat {
    if tasks == [] then 0 else WorkLeft(tasks[..|tasks| - 1]) + Left(tasks[|tasks| - 1].worker)
  }

  lemma {:induction false} WorkLeftUpdate(tasks: seq<Task>, i: nat, t: Task)
    requires i < |tasks|
    ensures WorkLeft(tasks[i := t]) == WorkLeft(tasks) - Left(tasks[i].worker) + Left(t.worker)
  {
    var n := |tasks| - 1;
    if i < n {
      WorkLeftUpdate(tasks[..n], i, t);
      assert tasks[i := t][..n] == tasks[..n][i := t];
    } else {
      assert tasks[i := t][..n] == tasks[..n];
    }
  }

  lemma {:induction false} NoWorkLeft(tasks: seq<Task>)
    ensures WorkLeft(tasks) == 0 <==> forall i | 0 <= i < |tasks| :: tasks[i].worker.Gone?
  {
    if tasks != [] {
      NoWorkLeft(tasks[..|tasks| - 1]);
    }
  }

  lemma {:induction false} SomebodyHolds(tasks: seq<Task>) returns (i: nat)
    requires Count(tasks, Holds) > 0
    ensures i < |tasks| && Holds(tasks[i])
  {
    i := |tasks| - 1;
    if !Holds(tasks[i]) {
      i := SomebodyHolds(tasks[..i]);
    }
  }

  lemma {:induction false} HolderCounts(tasks: seq<Task>, i: nat)
    requires i < |tasks| && Holds(tasks[i])
    ensures Count(tasks, Holds) > 0
  {
    if i < |tasks| - 1 {
      HolderCounts(tasks[..|tasks| - 1], i);
    }
  }

  /** While any worker is still around, some worker can step exactly when the pool has a slot at
      all; the settings loader admits no other pool. */
  lemma ProgressExactlyWithSlots(p: Pool)
    requires Inv(p) && WorkLeft(p.tasks) > 0
    ensures (exists a :: WorkerAction(a) && Enabled(p, a)) <==> p.size >= 1
  {
    NoWorkLeft(p.tasks);
    var k :| 0 <= k < |p.tasks| && !p.tasks[k].worker.Gone?;
    if p.size >= 1 {
      var a := EnabledWorkerAction(p);
    } else {
      forall a | WorkerAction(a) ensures !Enabled(p, a) {
        if Enabled(p, a) && !a.Acquire? {
          HolderCounts(p.tasks, a.i);
        }
      }
    }
  }

  lemma EnabledWorkerAction(p: Pool) returns (a: Action)
    requires Inv(p) && WorkLeft(p.tasks) > 0 && p.size >= 1
    ensures WorkerAction(a) && Enabled(p, a)
  {
    NoWorkLeft(p.tasks);
    if Count(p.tasks, Holds) > 0 {
      var i := SomebodyHolds(p.tasks);
      a := match p.tasks[i].worker case Holding => Begin(i) case Working => Finish(i, true) case _ => Release(i);
    } else {
      var k: nat :| k < |p.tasks| && !p.tasks[k].worker.Gone?;
      if Holds(p.tasks[k]) {
        HolderCounts(p.tasks, k);
      }
      a := Acquire(k);
    }
  }

  function WorkerSteps(run: seq<Action>): nat {
    if run == [] then 0 else (if WorkerAction(run[0]) then 1 else 0) + WorkerSteps(run[1..])
  }

  /** Without new starts every worker step uses up one unit of the remaining work and nothing adds
      to it, so no run has more than WorkLeft worker steps. */
  lemma {:induction false} WorkerStepsAreBounded(p: Pool, run: seq<Action>)
    requires Executable(p, run) && forall a | a in run :: !a.Start?
    ensures WorkLeft(Exec(p, run).tasks) + WorkerSteps(run) == WorkLeft(p.tasks)
    decreases |run|
  {
    if run != [] {
      var a, q := run[0], Do(p, run[0]);
      assert !a.Start?;
      if WorkerAction(a) || a.Report? {
        WorkLeftUpdate(p.tasks, a.i, q.tasks[a.i]);
      }
      WorkerStepsAreBounded(q, run[1..]);
    }
  }

  /** From every reachable state of a pool with a slot the workers alone can drain all tasks, which
      leaves every task done or failed and every slot free. */
  lemma {:induction false} WorkersCanDrain(p: Pool) returns (run: seq<Action>)
    requires Inv(p) && p.size >= 1
    ensures Executable(p, run) && |run| == WorkLeft(p.tasks) && forall a | a in run :: WorkerAction(a)
    ensures var q := Exec(p, run); q.free == q.size && forall i | 0 <= i < |q.tasks| :: !Active(q.tasks[i])
    decreases WorkLeft(p.tasks)
  {
    NoWorkLeft(p.tasks);
    if WorkLeft(p.tasks) == 0 {
      run := [];
      if Count(p.tasks, Holds) > 0 {
        var i := SomebodyHolds(p.tasks);
      }
      assert forall i | 0 <= i < |p.tasks| :: Coherent(p.tasks[i]);
    } else {
      var a := EnabledWorkerAction(p);
      var q := Do(p, a);
      WorkLeftUpdate(p.tasks, a.i, q.tasks[a.i]);
      StepKeepsInv(p, a);
      var rest := WorkersCanDrain(q);
      run := [a] + rest;
      assert run[1..] == rest;
    }
  }

  // ----- The object -----

  datatype Busy = RunInMaintenance | RunHasCapture(task: nat) | DeviceHasCapture(task: nat)

  class CaptureManager {
    var size: nat
    var free: nat
    var tasks: seq<Task>
    var maintenance: set<string>

    function View(): Pool
      reads this
    {
      Pool(size, free, tasks, maintenance)
    }

    constructor (pool: nat)
      ensures View() == Empty(pool)
    {
      size, free, tasks, maintenance := pool, pool, [], {};
    }

    /** The first queued or running task of a run, if any. */
    method ActiveTask(run: string) returns (r: Option<nat>)
      ensures r.None? ==> forall i | 0 <= i < |tasks| :: tasks[i].run == run ==> !Active(tasks[i])
      ensures r.Some? ==> r.value < |tasks| && tasks[r.value].run == run && Active(tasks[r.value])
      ensures r.Some? ==> forall i | 0 <= i < r.value :: tasks[i].run == run ==> !Active(tasks[i])
    {
      for k := 0 to |tasks|
        invariant forall i | 0 <= i < k :: tasks[i].run == run ==> !Active(tasks[i])
      {
        if tasks[k].run == run && Active(tasks[k]) {
          return Some(k);
        }
      }
      r := None;
    }

    /** A run is free for upgrade and archiving exactly when it could enter maintenance. */
    method BusyRun(run: string) returns (busy: bool)
      ensures busy == !Enabled(View(), EnterMaintenance(run))
    {
      var active := ActiveTask(run);
      busy := run in maintenance || active.Some?;
    }

    method LastFinished(run: string) returns (r: Option<nat>)
      ensures r.None? ==> forall i | 0 <= i < |tasks| :: tasks[i].run == run ==> Active(tasks[i])
      ensures r.Some? ==> r.value < |tasks| && tasks[r.value].run == run && !Active(tasks[r.value])
      ensures r.Some? ==> forall i | r.value < i < |tasks| :: tasks[i].run == run ==> Active(tasks[i])
    {
      for k := |tasks| downto 0
        invariant forall i | k <= i < |tasks| :: tasks[i].run == run ==> Active(tasks[i])
      {
        if tasks[k].run == run && !Active(tasks[k]) {
          return Some(k);
        }
      }
      r := None;
    }

    method Start(run: string, device: string, port: Option<string>, phase: string) returns (r: Result<nat, Busy>)
      modifies this
      ensures r.Ok? == Enabled(old(View()), Action.Start(run, device, port, phase))
      ensures r.Ok? ==> View() == Do(old(View()), Action.Start(run, device, port, phase)) && r.value == |old(tasks)|
      ensures r.Err? ==> View() == old(View())
      ensures r.Err? ==> match r.error
                         case RunInMaintenance => run in maintenance
                         case DeviceHasCapture(i) => run !in maintenance && i < |tasks| && tasks[i].device == device && Active(tasks[i])
                         case _ => false
    {
      if run in maintenance {
        return Err(RunInMaintenance);
      }
      for k := 0 to |tasks|
        invariant View() == old(View())
        invariant forall i | 0 <= i < k :: tasks[i].device == device ==> !Active(tasks[i])
      {
        if tasks[k].device == device && Active(tasks[k]) {
          return Err(DeviceHasCapture(k));
        }
      }
      r := Ok(|tasks|);
      tasks := tasks + [Task(run, device, port, phase, Queued, Waiting, [])];
    }

    /** `with maintenance(run)`, on the way in. */
    method Enter(run: string) returns (r: Result<(), Busy>)
      modifies this
      ensures r.Ok? == Enabled(old(View()), EnterMaintenance(run))
      ensures View() == if r.Ok? then Do(old(View()), EnterMaintenance(run)) else old(View())
      ensures r.Err? ==> match r.error
                         case RunInMaintenance => run in old(maintenance)
                         case RunHasCapture(i) => run !in old(maintenance) && i < |tasks| && tasks[i].run == run && Active(tasks[i])
                         case _ => false
    {
      if run in maintenance {
        return Err(RunInMaintenance);
      }
      var active := ActiveTask(run);
      if active.Some? {
        return Err(RunHasCapture(active.value));
      }
      maintenance := maintenance + {run};
      r := Ok(());
    }

    /** `with maintenance(run)`, on the way out. */
    method Exit(run: string)
      requires Enabled(View(), ExitMaintenance(run))
      modifies this
      ensures View() == Do(old(View()), ExitMaintenance(run))
    {
      maintenance := maintenance - {run};
    }

    /** The worker thread: each call is one uninterrupted stretch of it. */
    method WorkerStep(a: Action)
      requires WorkerAction(a) && Enabled(View(), a)
      modifies this
      ensures View() == Do(old(View()), a)
    {
      var t := tasks[a.i];
      match a {
        case Acquire(i) =>
          free := free - 1;
          t := t.(worker := Holding);
        case Begin(i) => t := t.(worker := Working, state := Running);
        case Finish(i, ok) => t := t.(worker := Ending, state := if ok then Done else Failed);
        case Release(i) =>
          free := free + 1;
          t := t.(worker := Gone);
      }
      tasks := tasks[a.i := t];
    }

    method OnProgress(i: nat, collector: string, status: string, message: Option<string>)
      requires Enabled(View(), Report(i, collector, status, message))
      modifies this
      ensures View() == Do(old(View()), Report(i, collector, status, message))
    {
      var steps, e := tasks[i].steps, Entry(collector, status, message);
      if status == "start" {
        steps := steps + [e.(status := "running")];
      } else {
        for k := |steps| downto 0
          invariant steps == tasks[i].steps && View() == old(View())
          invariant forall j | k <= j < |steps| :: steps[j].collector != collector
        {
          if steps[k].collector == collector {
            RewriteLatest(steps, e, k);
            tasks := tasks[i := tasks[i].(steps := steps[k := e])];
            return;
          }
        }
        RewriteNothing(steps, e);
      }
      tasks := tasks[i := tasks[i].(steps := steps)];
    }
  }

  lemma {:induction false} RewriteLatest(steps: seq<Entry>, e: Entry, k: nat)
    requires k < |steps| && steps[k].collector == e.collector
    requires forall j | k < j < |steps| :: steps[j].collector != e.collector
    ensures Rewrite(steps, e) == steps[k := e]
  {
    var n := |steps| - 1;
    if k < n {
      RewriteLatest(steps[..n], e, k);
      assert steps[k := e] == steps[..n][k := e] + [steps[n]];
    }
  }

  lemma {:induction false} RewriteNothing(steps: seq<Entry>, e: Entry)
    requires forall j | 0 <= j < |steps| :: steps[j].collector != e.collector
    ensures Rewrite(steps, e) == steps
  {
    if steps != [] {
      RewriteNothing(steps[..|steps| - 1], e);
      assert steps == steps[..|steps| - 1] + [steps[|steps| - 1]];
    }
  }
}
