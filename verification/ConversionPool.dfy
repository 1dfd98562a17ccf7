/**
 The conversion thread pool as a transition system.

 One caller and any number of workers share one mutex-protected state and two
 condition variables.  Every access to the shared state happens with the mutex held, so
 one critical section is one atomic step.  A condition-variable wait releases the mutex and
 enters the wait set in the same step; a parked thread leaves the wait set when it is
 notified or spuriously, and then re-checks its predicate as a separate step.  Calls of the
 borrowed task happen outside the mutex and are steps of their own.
 */
module ConversionPool {
  import opened Wrappers

  /** Generations are `u64` and wrap. */
  const U64: nat := 0x1_0000_0000_0000_0000

  datatype Outcome = InFlight | Succeeded | Failed | Refused | Unwound

  /** What one call of `run` did: how often it called its closure with each index, how many of
      those calls panicked, and how it ended.  History only; no step reads it. */
  datatype Run = Run(tasks: nat, calls: multiset<nat>, panics: nat, outcome: Outcome)

  datatype WorkerPc =
    | Ready                      // about to lock and test the loop's conditions
    | Parked                     // in the wait set of `start`
    | Holding(task: nat)         // owns a task reference, about to call it
    | Finishing(panicked: bool)  // the call is over, about to lock and decrement
    | Exited

  /** `seen` is the worker's local variable; `lastSeen` is the same value before wrapping. */
  datatype Worker = Worker(pc: WorkerPc, seen: nat, lastSeen: nat)

  datatype CallerPc =
    | Idle
    | Published                  // state written, `start` not notified yet
    | Running                    // about to call its closure with index 0
    | Checking(own: bool)        // about to lock and test `remaining`
    | ParkedDone(own: bool)      // in the wait set of `done`
    | ShuttingDown               // `shutdown` set, `start` not notified yet
    | Joining(next: nat)
    | Dropped

  /** A task reference is the index in `runs` of the call that lent it. */
  datatype Pool = Pool(
    generation: nat, task: Option<nat>, tasks: nat, remaining: nat, panicked: bool, shutdown: bool,
    workers: seq<Worker>, caller: CallerPc,
    published: nat, runs: seq<Run>)

  /** A pool of `workers + 1` threads right after `new`. */
  function Init(workers: nat): (p: Pool)
  {
    Pool(0, None, 0, 0, false, false, seq(workers, i => Worker(Ready, 0, 0)), Idle, 0, [])
  }

  datatype Step =
    | Refuse(tasks: nat)
    | Inline(tasks: nat, panics: bool)
    | Publish(tasks: nat)
    | NotifyStart
    | OwnCall(panics: bool)
    | CallerCheck
    | BeginDrop
    | NotifyShutdown
    | Join
    | WorkerCheck(w: nat)
    | WorkerCall(w: nat, panics: bool)
    | WorkerFinish(w: nat)
    | SpuriousWorker(w: nat)
    | SpuriousCaller

  predicate Enabled(p: Pool, s: Step)
  {
    match s
    case Refuse(tasks) => p.caller.Idle? && tasks > |p.workers| + 1
    case Inline(tasks, panics) => p.caller.Idle? && tasks <= 1 && (panics ==> tasks == 1)
    case Publish(tasks) => p.caller.Idle? && 2 <= tasks <= |p.workers| + 1
    case NotifyStart => p.caller.Published?
    case OwnCall(_) => p.caller.Running? && |p.runs| > 0
    case CallerCheck => p.caller.Checking? && |p.runs| > 0
    case BeginDrop => p.caller.Idle?
    case NotifyShutdown => p.caller.ShuttingDown?
    case Join => p.caller.Joining? && (p.caller.next < |p.workers| ==> p.workers[p.caller.next].pc.Exited?)
    case WorkerCheck(w) => w < |p.workers| && p.workers[w].pc.Ready?
    case WorkerCall(w, _) => w < |p.workers| && p.workers[w].pc.Holding? && p.workers[w].pc.task < |p.runs|
    case WorkerFinish(w) => w < |p.workers| && p.workers[w].pc.Finishing?
    case SpuriousWorker(w) => w < |p.workers| && p.workers[w].pc.Parked?
    case SpuriousCaller => p.caller.ParkedDone?
  }

  function Next(p: Pool, s: Step): Pool
    requires Enabled(p, s)
  {
    match s
    case Refuse(tasks) => p.(runs := p.runs + [Run(tasks, multiset{}, 0, Refused)])
    case Inline(tasks, panics) =>
      p.(runs := p.runs + [Run(tasks, if tasks == 1 then multiset{0} else multiset{},
                               if panics then 1 else 0, if panics then Unwound else Succeeded)])
    case Publish(tasks) =>
      p.(generation := (p.generation + 1) % U64, task := Some(|p.runs|), tasks := tasks,
         remaining := tasks - 1, panicked := false, caller := Published,
         published := p.published + 1, runs := p.runs + [Run(tasks, multiset{}, 0, InFlight)])
    case NotifyStart => p.(workers := WakeAll(p.workers), caller := Running)
    case OwnCall(panics) =>
      p.(runs := RecordCall(p.runs, |p.runs| - 1, 0, panics), caller := Checking(panics))
    case CallerCheck =>
      if p.remaining != 0 then p.(caller := ParkedDone(p.caller.own))
      else
        var last := |p.runs| - 1;
        var outcome := if p.panicked || p.caller.own then Failed else Succeeded;
        p.(task := None, caller := Idle, runs := p.runs[last := p.runs[last].(outcome := outcome)])
    case BeginDrop => p.(shutdown := true, caller := ShuttingDown)
    case NotifyShutdown => p.(workers := WakeAll(p.workers), caller := Joining(0))
    case Join =>
      p.(caller := if p.caller.next < |p.workers| then Joining(p.caller.next + 1) else Dropped)
    case WorkerCheck(w) => p.(workers := p.workers[w := Checked(p, w)])
    case WorkerCall(w, panics) =>
      p.(runs := RecordCall(p.runs, p.workers[w].pc.task, w + 1, panics),
         workers := p.workers[w := p.workers[w].(pc := Finishing(panics))])
    case WorkerFinish(w) =>
      var remaining := if p.remaining == 0 then U64 - 1 else p.remaining - 1;
      p.(panicked := p.panicked || p.workers[w].pc.panicked,
         remaining := remaining,
         caller := if remaining == 0 && p.caller.ParkedDone? then Checking(p.caller.own) else p.caller,
         workers := p.workers[w := p.workers[w].(pc := Ready)])
    case SpuriousWorker(w) => p.(workers := p.workers[w := p.workers[w].(pc := Ready)])
    case SpuriousCaller => p.(caller := Checking(p.caller.own))
  }

  /** The body of the worker's inner loop, up to its exit or its next wait. */
  function Checked(p: Pool, w: nat): Worker
    requires w < |p.workers|
  {
    var me := p.workers[w];
    if p.shutdown then me.(pc := Exited)
    else if p.generation != me.seen then
      Worker(if w + 1 < p.tasks && p.task.Some? then Holding(p.task.value) else Ready, p.generation, p.published)
    else me.(pc := Parked)
  }

  function WakeAll(workers: seq<Worker>): (woken: seq<Worker>)
    ensures |woken| == |workers|
  {
    seq(|workers|, i requires 0 <= i < |workers| =>
      if workers[i].pc.Parked? then workers[i].(pc := Ready) else workers[i])
  }

  function RecordCall(runs: seq<Run>, run: nat, index: nat, panics: bool): seq<Run>
    requires run < |runs|
  {
    runs[run := runs[run].(calls := runs[run].calls + multiset{index},
                           panics := runs[run].panics + if panics then 1 else 0)]
  }

  /** The steps of a schedule can be taken one after the other. */
  predicate Schedulable(p: Pool, steps: seq<Step>)
    decreases |steps|
  {
    steps == [] || (Enabled(p, steps[0]) && Schedulable(Next(p, steps[0]), steps[1..]))
  }

  function After(p: Pool, steps: seq<Step>): Pool
    requires Schedulable(p, steps)
    decreases |steps|
  {
    if steps == [] then p else After(Next(p, steps[0]), steps[1..])
  }

  // ----- The invariant

  predicate InRun(p: Pool) { p.caller.Published? || p.caller.Running? || OwnCallDone(p) }

  predicate OwnCallDone(p: Pool) { p.caller.Checking? || p.caller.ParkedDone? }

  predicate Dropping(p: Pool) { p.caller.ShuttingDown? || p.caller.Joining? }

  predicate Busy(worker: Worker) { worker.pc.Holding? || worker.pc.Finishing? }

  predicate Behind(p: Pool, worker: Worker) { worker.lastSeen < p.published }

  /** The workers (0-based) that take part in the latest generation and have not finished with it. */
  function Pending(p: Pool): set<nat>
  {
    set w: nat | w < |p.workers| && w + 1 < p.tasks && (Busy(p.workers[w]) || Behind(p, p.workers[w]))
  }

  /** How often the run in flight has called its task with index `i`. */
  function CallsSoFar(p: Pool, i: nat): nat
  {
    if i == 0 then if OwnCallDone(p) then 1 else 0
    else if i < p.tasks && i <= |p.workers| && !Behind(p, p.workers[i - 1]) && !p.workers[i - 1].pc.Holding?
    then 1 else 0
  }

  predicate PanicSeen(p: Pool)
  {
    || p.panicked
    || (OwnCallDone(p) && p.caller.own)
    || exists w: nat :: w < |p.workers| && p.workers[w].pc == Finishing(true)
  }

  /** The indices `0 .. n - 1`. */
  function Below(n: nat): (s: set<nat>)
    ensures |s| == n && forall i: nat :: i in s <==> i < n
  {
    if n == 0 then {} else Below(n - 1) + {n - 1}
  }

  /** Every index below `tasks`, once each. */
  function Indices(tasks: nat): multiset<nat> { multiset(Below(tasks)) }

  /** What `run` promises about a call that is over, in a pool of `threads` threads. */
  predicate Kept(r: Run, threads: nat)
  {
    match r.outcome
    case InFlight => false
    case Refused => r.tasks > threads && r.calls == multiset{} && r.panics == 0
    case Unwound => r.tasks == 1 <= threads && r.calls == Indices(1) && r.panics == 1
    case Succeeded => r.tasks <= threads && r.calls == Indices(r.tasks) && r.panics == 0
    case Failed => 2 <= r.tasks <= threads && r.calls == Indices(r.tasks) && r.panics > 0
  }

  /** `remaining` is the number of participants not yet finished with the latest generation. */
  predicate Counted(p: Pool)
  {
    p.remaining == |Pending(p)|
  }

  /** The wrapped counters agree with the unwrapped history, and no worker is ahead. */
  predicate Generations(p: Pool)
  {
    && p.generation == p.published % U64
    && (forall w: nat :: w < |p.workers| ==>
          p.workers[w].seen == p.workers[w].lastSeen % U64 && p.workers[w].lastSeen <= p.published)
  }

  predicate Borrow(p: Pool)
  {
    && (InRun(p) ==> |p.runs| > 0 && p.task == Some(|p.runs| - 1))
    && (!InRun(p) ==> p.task.None? && p.remaining == 0)
    && (forall w: nat :: w < |p.workers| && Busy(p.workers[w]) ==>
          InRun(p) && w + 1 < p.tasks && p.workers[w].lastSeen == p.published)
    && (forall w: nat :: w < |p.workers| && p.workers[w].pc.Holding? ==>
          p.workers[w].pc.task == |p.runs| - 1)
  }

  predicate IsOver(p: Pool, r: nat) { r < |p.runs| && !(InRun(p) && r == |p.runs| - 1) }

  /** Every call of `run` that is over kept its promise. */
  predicate Closed(p: Pool)
  {
    forall r: nat :: r < |p.runs| && IsOver(p, r) ==> Kept(p.runs[r], |p.workers| + 1)
  }

  /** The call in progress, if any, has the calls and panics its threads have made so far. */
  ghost predicate Open(p: Pool)
  {
    InRun(p) ==>
      && |p.runs| > 0
      && 2 <= p.tasks <= |p.workers| + 1
      && var run := p.runs[|p.runs| - 1];
         && run.outcome.InFlight?
         && run.tasks == p.tasks
         && (forall i: nat :: run.calls[i] == CallsSoFar(p, i))
         && (run.panics > 0 <==> PanicSeen(p))
  }

  /** No wakeup is lost: a thread parked although its condition holds has a notify coming. */
  predicate Wakeups(p: Pool)
  {
    && (p.shutdown <==> Dropping(p) || p.caller.Dropped?)
    && (forall w: nat :: w < |p.workers| ==>
          && (p.workers[w].pc.Exited? ==> p.shutdown)
          && (p.workers[w].pc.Parked? && p.workers[w].seen != p.generation ==> p.caller.Published?)
          && (p.workers[w].pc.Parked? && p.shutdown ==> p.caller.ShuttingDown?))
    && (p.caller.ParkedDone? ==> p.remaining != 0)
    && (p.caller.Joining? ==> p.caller.next <= |p.workers|)
    && (forall w: nat :: w < |p.workers| && (p.caller.Dropped? || (p.caller.Joining? && w < p.caller.next)) ==>
          p.workers[w].pc.Exited?)
  }

  ghost predicate Inv(p: Pool)
  {
    Generations(p) && Counted(p) && Borrow(p) && Closed(p) && Open(p) && Wakeups(p)
  }

  lemma InitInv(workers: nat)
    ensures Inv(Init(workers))
  {
    assert Pending(Init(workers)) == {};
  }

  lemma StepKeepsGenerations(p: Pool, s: Step)
    requires Generations(p) && Enabled(p, s)
    ensures Generations(Next(p, s))
  {
  }

  /** A worker that takes the latest generation owes it a decrement exactly if it takes part. */
  lemma TakingKeepsPending(p: Pool, w: nat)
    requires Generations(p) && Counted(p) && Borrow(p) && Enabled(p, WorkerCheck(w))
    ensures Pending(Next(p, WorkerCheck(w))) == Pending(p)
  {
    if p.generation != p.workers[w].seen && w + 1 < p.tasks && !p.shutdown {
      assert w in Pending(p);
    }
  }

  lemma FinishingLeavesPending(p: Pool, w: nat)
    requires Borrow(p) && Enabled(p, WorkerFinish(w))
    ensures w in Pending(p) && Pending(Next(p, WorkerFinish(w))) == Pending(p) - {w}
  {
  }

  lemma OtherStepsKeepPending(p: Pool, s: Step)
    requires Enabled(p, s) && !s.Publish? && !s.WorkerFinish? && !s.WorkerCheck?
    ensures Pending(Next(p, s)) == Pending(p)
  {
  }

  lemma StepKeepsCounted(p: Pool, s: Step)
    requires Generations(p) && Counted(p) && Borrow(p) && Enabled(p, s)
    ensures Counted(Next(p, s))
  {
    match s {
      case Publish(tasks) => assert Pending(Next(p, s)) == Below(tasks - 1);
      case WorkerFinish(w) => FinishingLeavesPending(p, w);
      case WorkerCheck(w) => TakingKeepsPending(p, w);
      case _ => OtherStepsKeepPending(p, s);
    }
  }

  /** Once `remaining` is zero no worker is using the closure. */
  lemma NobodyBusy(p: Pool)
    requires Counted(p) && Borrow(p) && p.remaining == 0
    ensures forall w: nat :: w < |p.workers| ==> !Busy(p.workers[w])
    ensures forall w: nat :: w < |p.workers| && w + 1 < p.tasks ==> !Behind(p, p.workers[w])
  {
    forall w: nat | w < |p.workers|
      ensures !Busy(p.workers[w])
      ensures w + 1 < p.tasks ==> !Behind(p, p.workers[w])
    {
      assert w !in Pending(p);
    }
  }

  lemma CallerStepKeepsBorrow(p: Pool, s: Step)
    requires Counted(p) && Borrow(p) && Enabled(p, s)
    requires !s.WorkerCheck? && !s.WorkerCall? && !s.WorkerFinish? && !s.SpuriousWorker?
    ensures Borrow(Next(p, s))
  {
    if p.remaining == 0 { NobodyBusy(p); }
  }

  lemma StepKeepsBorrow(p: Pool, s: Step)
    requires Generations(p) && Counted(p) && Borrow(p) && Enabled(p, s)
    ensures Borrow(Next(p, s))
  {
    match s {
      case WorkerCheck(_) =>
      case WorkerCall(_, _) =>
      case WorkerFinish(w) => FinishingLeavesPending(p, w);
      case SpuriousWorker(_) =>
      case _ => CallerStepKeepsBorrow(p, s);
    }
  }

  /** When the caller leaves `run`, the call has kept its promise. */
  lemma ReturnIsKept(p: Pool)
    requires Inv(p) && Enabled(p, CallerCheck) && p.remaining == 0
    ensures Kept(Next(p, CallerCheck).runs[|p.runs| - 1], |p.workers| + 1)
  {
    NobodyBusy(p);
    var run := p.runs[|p.runs| - 1];
    assert forall i: nat :: run.calls[i] == Indices(p.tasks)[i];
    assert run.calls == Indices(p.tasks);
  }

  /** The record of a call that is over never changes. */
  lemma ClosedRunsAreFixed(p: Pool, s: Step, r: nat)
    requires Enabled(p, s) && Borrow(p) && IsOver(p, r)
    ensures |p.runs| <= |Next(p, s).runs| && Next(p, s).runs[r] == p.runs[r]
  {
  }

  lemma SmallIndices()
    ensures Indices(0) == multiset{} && Indices(1) == multiset{0}
  {
    assert Below(0) == {} && Below(1) == {0};
  }

  /** The step that ends a call leaves it with its promise kept. */
  lemma NewlyOverIsKept(p: Pool, s: Step, r: nat)
    requires Enabled(p, s) && Borrow(p) && !IsOver(p, r) && IsOver(Next(p, s), r)
    requires s.CallerCheck? && p.remaining == 0 ==> Kept(Next(p, s).runs[|p.runs| - 1], |p.workers| + 1)
    ensures Kept(Next(p, s).runs[r], |p.workers| + 1)
  {
    SmallIndices();
  }

  lemma StepKeepsClosed(p: Pool, s: Step)
    requires Closed(p) && Enabled(p, s) && Borrow(p)
    requires s.CallerCheck? && p.remaining == 0 ==> Kept(Next(p, s).runs[|p.runs| - 1], |p.workers| + 1)
    ensures Closed(Next(p, s))
  {
    var q := Next(p, s);
    assert |q.workers| == |p.workers|;
    forall r: nat | IsOver(q, r)
      ensures Kept(q.runs[r], |q.workers| + 1)
    {
      if IsOver(p, r) {
        ClosedRunsAreFixed(p, s, r);
      } else {
        NewlyOverIsKept(p, s, r);
      }
    }
  }

  /** The panics of the call in progress are remembered until it returns. */
  lemma StepKeepsPanicSeen(p: Pool, s: Step)
    requires Counted(p) && Borrow(p) && InRun(p) && Enabled(p, s) && InRun(Next(p, s))
    ensures PanicSeen(Next(p, s)) <==> PanicSeen(p) || (s.OwnCall? && s.panics) || (s.WorkerCall? && s.panics)
  {
    var q := Next(p, s);
    match s {
      case WorkerFinish(w) =>
        assert forall v: nat :: v < |p.workers| && v != w ==> q.workers[v] == p.workers[v];
      case WorkerCall(w, panics) =>
        assert forall v: nat :: v < |p.workers| && v != w ==> q.workers[v] == p.workers[v];
        assert q.workers[w].pc == Finishing(panics);
      case WorkerCheck(w) =>
        assert forall v: nat :: v < |p.workers| && v != w ==> q.workers[v] == p.workers[v];
      case SpuriousWorker(w) =>
        assert forall v: nat :: v < |p.workers| && v != w ==> q.workers[v] == p.workers[v];
      case NotifyStart =>
        assert forall v: nat :: v < |p.workers| && !p.workers[v].pc.Parked? ==> q.workers[v] == p.workers[v];
      case _ =>
        assert q.workers == p.workers;
    }
  }

  /** The calls of the run in progress are those its threads have made. */
  lemma WorkerStepKeepsCalls(p: Pool, s: Step, i: nat)
    requires Generations(p) && Borrow(p) && Open(p) && InRun(p) && Enabled(p, s)
    requires s.WorkerCall? || s.WorkerCheck? || s.WorkerFinish?
    ensures Next(p, s).runs[|p.runs| - 1].calls[i] == CallsSoFar(Next(p, s), i)
  {
    assert p.runs[|p.runs| - 1].calls[i] == CallsSoFar(p, i);
  }

  lemma OtherStepKeepsCalls(p: Pool, s: Step, i: nat)
    requires Borrow(p) && Open(p) && InRun(p) && Enabled(p, s) && InRun(Next(p, s))
    requires !s.WorkerCall? && !s.WorkerCheck? && !s.WorkerFinish?
    ensures Next(p, s).runs[|p.runs| - 1].calls[i] == CallsSoFar(Next(p, s), i)
  {
    assert p.runs[|p.runs| - 1].calls[i] == CallsSoFar(p, i);
  }

  lemma StepKeepsCalls(p: Pool, s: Step)
    requires Generations(p) && Borrow(p) && Open(p) && InRun(p) && Enabled(p, s) && InRun(Next(p, s))
    ensures forall i: nat :: Next(p, s).runs[|p.runs| - 1].calls[i] == CallsSoFar(Next(p, s), i)
  {
    forall i: nat
      ensures Next(p, s).runs[|p.runs| - 1].calls[i] == CallsSoFar(Next(p, s), i)
    {
      if s.WorkerCall? || s.WorkerCheck? || s.WorkerFinish? {
        WorkerStepKeepsCalls(p, s, i);
      } else {
        OtherStepKeepsCalls(p, s, i);
      }
    }
  }

  lemma StepKeepsOpen(p: Pool, s: Step)
    requires Generations(p) && Counted(p) && Borrow(p) && Open(p) && Enabled(p, s)
    ensures Open(Next(p, s))
  {
    if s.Publish? {
      NobodyBusy(p);
    } else if InRun(p) && InRun(Next(p, s)) {
      StepKeepsPanicSeen(p, s);
      StepKeepsCalls(p, s);
    }
  }

  lemma StepKeepsWakeups(p: Pool, s: Step)
    requires Counted(p) && Wakeups(p) && Enabled(p, s)
    ensures Wakeups(Next(p, s))
  {
  }

  lemma StepKeepsInv(p: Pool, s: Step)
    requires Inv(p) && Enabled(p, s)
    ensures Inv(Next(p, s))
  {
    if s.CallerCheck? && p.remaining == 0 { ReturnIsKept(p); }
    StepKeepsGenerations(p, s);
    StepKeepsCounted(p, s);
    StepKeepsBorrow(p, s);
    StepKeepsClosed(p, s);
    StepKeepsOpen(p, s);
    StepKeepsWakeups(p, s);
  }

  // ----- What every schedule of a fresh pool satisfies

  lemma {:induction false} ScheduleKeepsInv(p: Pool, steps: seq<Step>)
    requires Inv(p) && Schedulable(p, steps)
    ensures Inv(After(p, steps))
    decreases |steps|
  {
    if steps != [] {
      StepKeepsInv(p, steps[0]);
      ScheduleKeepsInv(Next(p, steps[0]), steps[1..]);
    }
  }

  lemma ReachableInv(workers: nat, steps: seq<Step>)
    requires Schedulable(Init(workers), steps)
    ensures Inv(After(Init(workers), steps))
  {
    InitInv(workers);
    ScheduleKeepsInv(Init(workers), steps);
  }

  // ----- The records are what the schedule asked for and did

  /** A request and the calls made for it, as read off a schedule without looking at any pool. */
  datatype Seen = Seen(tasks: nat, calls: multiset<nat>, panics: nat)

  function Called(seen: seq<Seen>, index: nat, panics: bool): seq<Seen>
  {
    if seen == [] then []
    else
      var last := seen[|seen| - 1];
      seen[..|seen| - 1] +
      [Seen(last.tasks, last.calls + multiset{index}, last.panics + if panics then 1 else 0)]
  }

  /** A step makes a request, or calls the closure of the latest one, or neither. */
  function Observe(seen: seq<Seen>, s: Step): seq<Seen>
  {
    match s
    case Refuse(tasks) => seen + [Seen(tasks, multiset{}, 0)]
    case Inline(tasks, panics) =>
      var asked := seen + [Seen(tasks, multiset{}, 0)];
      if tasks == 1 then Called(asked, 0, panics) else asked
    case Publish(tasks) => seen + [Seen(tasks, multiset{}, 0)]
    case OwnCall(panics) => Called(seen, 0, panics)
    case WorkerCall(w, panics) => Called(seen, w + 1, panics)
    case _ => seen
  }

  function ObserveAll(seen: seq<Seen>, steps: seq<Step>): seq<Seen>
    decreases |steps|
  {
    if steps == [] then seen else ObserveAll(Observe(seen, steps[0]), steps[1..])
  }

  predicate Records(runs: seq<Run>, seen: seq<Seen>)
  {
    |runs| == |seen| && forall r: nat :: r < |runs| ==>
      runs[r].tasks == seen[r].tasks && runs[r].calls == seen[r].calls && runs[r].panics == seen[r].panics
  }

  lemma CallRecords(runs: seq<Run>, seen: seq<Seen>, index: nat, panics: bool)
    requires Records(runs, seen) && runs != []
    ensures Records(RecordCall(runs, |runs| - 1, index, panics), Called(seen, index, panics))
  {
  }

  lemma RequestRecords(p: Pool, seen: seq<Seen>, s: Step)
    requires Enabled(p, s) && Records(p.runs, seen) && (s.Refuse? || s.Inline? || s.Publish?)
    ensures Records(Next(p, s).runs, Observe(seen, s))
  {
  }

  lemma OtherStepRecords(p: Pool, seen: seq<Seen>, s: Step)
    requires Enabled(p, s) && Records(p.runs, seen)
    requires !s.Refuse? && !s.Inline? && !s.Publish? && !s.OwnCall? && !s.WorkerCall?
    ensures Records(Next(p, s).runs, Observe(seen, s))
  {
  }

  lemma StepRecords(p: Pool, seen: seq<Seen>, s: Step)
    requires Borrow(p) && Enabled(p, s) && Records(p.runs, seen)
    ensures Records(Next(p, s).runs, Observe(seen, s))
  {
    match s {
      case OwnCall(panics) => CallRecords(p.runs, seen, 0, panics);
      case WorkerCall(w, panics) => CallRecords(p.runs, seen, w + 1, panics);
      case Refuse(_) => RequestRecords(p, seen, s);
      case Inline(_, _) => RequestRecords(p, seen, s);
      case Publish(_) => RequestRecords(p, seen, s);
      case _ => OtherStepRecords(p, seen, s);
    }
  }

  lemma {:induction false} ScheduleRecords(p: Pool, seen: seq<Seen>, steps: seq<Step>)
    requires Inv(p) && Schedulable(p, steps) && Records(p.runs, seen)
    ensures Records(After(p, steps).runs, ObserveAll(seen, steps))
    decreases |steps|
  {
    if steps != [] {
      StepKeepsInv(p, steps[0]);
      StepRecords(p, seen, steps[0]);
      ScheduleRecords(Next(p, steps[0]), Observe(seen, steps[0]), steps[1..]);
    }
  }

  /** How `run` must end for a request and the panics of its calls. */
  predicate EndsAsAsked(seen: Seen, threads: nat, outcome: Outcome)
  {
    match outcome
    case InFlight => false
    case Refused => seen.tasks > threads
    case Unwound => seen.tasks == 1 <= threads && seen.panics > 0
    case Succeeded => seen.tasks <= threads && seen.panics == 0
    case Failed => 2 <= seen.tasks <= threads && seen.panics > 0
  }

  /** In every interleaving there is one record per request, in order; and each request that is
      over called its closure exactly once per index below `tasks` (never, when it asked for more
      tasks than threads), was refused exactly then, and failed exactly if one of its own calls
      panicked. */
  lemma EveryRunIsExact(workers: nat, steps: seq<Step>, r: nat)
    requires Schedulable(Init(workers), steps) && r < |After(Init(workers), steps).runs|
    ensures var p := After(Init(workers), steps);
      var seen := ObserveAll([], steps);
      && |p.workers| == workers && |p.runs| == |seen| && p.runs[r].tasks == seen[r].tasks
      && if InRun(p) && r == |p.runs| - 1 then p.runs[r].outcome.InFlight?
         else
           && seen[r].calls == (if seen[r].tasks > workers + 1 then multiset{} else Indices(seen[r].tasks))
           && EndsAsAsked(seen[r], workers + 1, p.runs[r].outcome)
  {
    ReachableInv(workers, steps);
    WorkerCountIsFixed(Init(workers), steps);
    InitInv(workers);
    ScheduleRecords(Init(workers), [], steps);
    var p := After(Init(workers), steps);
    if !(InRun(p) && r == |p.runs| - 1) { assert IsOver(p, r); }
  }

  lemma {:induction false} WorkerCountIsFixed(p: Pool, steps: seq<Step>)
    requires Schedulable(p, steps)
    ensures |After(p, steps).workers| == |p.workers|
    decreases |steps|
  {
    if steps != [] { WorkerCountIsFixed(Next(p, steps[0]), steps[1..]); }
  }

  /** A worker that holds or is finishing a task uses the one lent by the call in flight, that
      call cannot leave before the worker has decremented `remaining`, and the decrement cannot
      underflow.  Between calls nobody holds a task and none is stored. */
  lemma BorrowOutlivesEveryUse(workers: nat, steps: seq<Step>, w: nat)
    requires Schedulable(Init(workers), steps) && w < |After(Init(workers), steps).workers|
    ensures var p := After(Init(workers), steps);
      && (Busy(p.workers[w]) ==>
            && InRun(p)
            && |p.runs| > 0
            && p.runs[|p.runs| - 1].outcome.InFlight?
            && (p.workers[w].pc.Holding? ==> p.workers[w].pc.task == |p.runs| - 1)
            && p.remaining > 0
            && (p.caller.Checking? ==> Next(p, CallerCheck).caller.ParkedDone?))
      && (!InRun(p) ==> p.task.None? && !Busy(p.workers[w]))
  {
    ReachableInv(workers, steps);
    var p := After(Init(workers), steps);
    if Busy(p.workers[w]) {
      assert w in Pending(p);
    }
  }
}
