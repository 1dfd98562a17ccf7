/**
 Progress of the conversion pool: no wakeup is lost, `run` and `drop` finish, and the one
 way in which `run` can hang.

 Steps are either internal (a thread of the pool moves), spurious (a wait returns without a
 notify) or external (the owner starts the next call of `run` or drops the pool).
 */
module ConversionPoolProgress {
  import opened Wrappers
  import opened ConversionPool

  predicate Spurious(s: Step) { s.SpuriousWorker? || s.SpuriousCaller? }

  predicate External(s: Step) { s.Refuse? || s.Inline? || s.Publish? || s.BeginDrop? }

  predicate Internal(s: Step) { !Spurious(s) && !External(s) }

  // ----- A measure that every internal step lowers

  function Rank(worker: Worker, generation: nat): nat
  {
    match worker.pc
    case Exited => 0
    case Parked => if worker.seen == generation then 0 else 5
    case Ready => if worker.seen == generation then 1 else 5
    case Holding(_) => 4
    case Finishing(_) => 3
  }

  function Ranks(workers: seq<Worker>, generation: nat): nat
  {
    if workers == [] then 0 else Rank(workers[0], generation) + Ranks(workers[1..], generation)
  }

  function CallerRank(p: Pool): nat
  {
    match p.caller
    case Idle => 0
    case Published => |p.workers| + 4
    case Running => 3
    case Checking(_) => 2
    case ParkedDone(_) => 1
    case ShuttingDown => 2 * |p.workers| + 3
    case Joining(next) => if next <= |p.workers| then |p.workers| - next + 1 else 1
    case Dropped => 0
  }

  /** An upper bound on the internal steps left before the pool is at rest. */
  function Work(p: Pool): nat
  {
    Ranks(p.workers, p.generation) + CallerRank(p)
  }

  lemma {:induction false} RankOfOne(workers: seq<Worker>, generation: nat, w: nat, worker: Worker)
    requires w < |workers|
    ensures Ranks(workers[w := worker], generation) + Rank(workers[w], generation)
         == Ranks(workers, generation) + Rank(worker, generation)
  {
    if w == 0 {
      assert workers[0 := worker][1..] == workers[1..];
    } else {
      assert workers[w := worker][1..] == workers[1..][w - 1 := worker];
      RankOfOne(workers[1..], generation, w - 1, worker);
    }
  }

  lemma {:induction false} WakingCosts(workers: seq<Worker>, generation: nat)
    ensures Ranks(WakeAll(workers), generation) <= Ranks(workers, generation) + |workers|
  {
    if workers != [] {
      assert WakeAll(workers)[1..] == WakeAll(workers[1..]);
      WakingCosts(workers[1..], generation);
    }
  }

  predicate OfWorker(s: Step) { s.WorkerCheck? || s.WorkerCall? || s.WorkerFinish? }

  lemma CallerStepsLowerWork(p: Pool, s: Step)
    requires Enabled(p, s) && Internal(s) && !OfWorker(s)
    ensures Work(Next(p, s)) < Work(p)
  {
    if s.NotifyStart? || s.NotifyShutdown? { WakingCosts(p.workers, p.generation); }
  }

  lemma CheckLowersRank(p: Pool, w: nat)
    requires Enabled(p, WorkerCheck(w))
    ensures Rank(Checked(p, w), p.generation) < Rank(p.workers[w], p.generation)
  {
  }

  lemma FinishLowersRank(p: Pool, w: nat)
    requires Generations(p) && Borrow(p) && Enabled(p, WorkerFinish(w))
    ensures Rank(p.workers[w].(pc := Ready), p.generation) + 2 == Rank(p.workers[w], p.generation)
  {
  }

  lemma WorkerStepsLowerWork(p: Pool, s: Step)
    requires Generations(p) && Borrow(p) && Enabled(p, s) && OfWorker(s)
    ensures Work(Next(p, s)) < Work(p)
  {
    match s {
      case WorkerCheck(w) =>
        CheckLowersRank(p, w);
        RankOfOne(p.workers, p.generation, w, Checked(p, w));
      case WorkerCall(w, panics) =>
        RankOfOne(p.workers, p.generation, w, p.workers[w].(pc := Finishing(panics)));
      case WorkerFinish(w) =>
        FinishLowersRank(p, w);
        RankOfOne(p.workers, p.generation, w, p.workers[w].(pc := Ready));
    }
  }

  lemma InternalStepsLowerWork(p: Pool, s: Step)
    requires Generations(p) && Borrow(p) && Enabled(p, s) && Internal(s)
    ensures Work(Next(p, s)) < Work(p)
  {
    if OfWorker(s) { WorkerStepsLowerWork(p, s); } else { CallerStepsLowerWork(p, s); }
  }

  lemma SpuriousStepsCostOne(p: Pool, s: Step)
    requires Enabled(p, s) && Spurious(s)
    ensures Work(Next(p, s)) <= Work(p) + 1
  {
    match s {
      case SpuriousWorker(w) => RankOfOne(p.workers, p.generation, w, p.workers[w].(pc := Ready));
      case SpuriousCaller =>
    }
  }

  function Count(steps: seq<Step>, keep: Step -> bool): nat
  {
    if steps == [] then 0 else (if keep(steps[0]) then 1 else 0) + Count(steps[1..], keep)
  }

  /** Between two external steps the pool takes at most `Work` internal steps, plus one per
      spurious wakeup. */
  lemma {:induction false} InternalStepsAreBounded(p: Pool, steps: seq<Step>)
    requires Inv(p) && Schedulable(p, steps)
    requires forall i :: 0 <= i < |steps| ==> !External(steps[i])
    ensures Count(steps, Internal) + Work(After(p, steps)) <= Work(p) + Count(steps, Spurious)
    decreases |steps|
  {
    if steps != [] {
      StepKeepsInv(p, steps[0]);
      if Internal(steps[0]) {
        InternalStepsLowerWork(p, steps[0]);
      } else {
        SpuriousStepsCostOne(p, steps[0]);
      }
      InternalStepsAreBounded(Next(p, steps[0]), steps[1..]);
    }
  }

  // ----- No deadlock

  /** A participant whose own `seen` already equals the wrapped new generation: it has slept
      through a positive multiple of 2^64 generations and takes the new one for an old one. */
  predicate Lapped(p: Pool, w: nat)
  {
    w < |p.workers| && w + 1 < p.tasks && Behind(p, p.workers[w]) && p.workers[w].seen == p.generation
  }

  /** The worker can take a step of its own. */
  predicate CanMove(p: Pool, w: nat)
  {
    Enabled(p, WorkerCheck(w)) || Enabled(p, WorkerCall(w, false)) || Enabled(p, WorkerFinish(w))
  }

  /** In every reachable state a worker parked although its condition holds has its notify still to
      come.  A caller parked on `done` waits for workers each of which can move, unless it was
      lapped, and the last of whose decrements wakes it. */
  lemma NoWakeupIsLost(workers: nat, steps: seq<Step>, w: nat)
    requires Schedulable(Init(workers), steps) && w < |After(Init(workers), steps).workers|
    ensures var p := After(Init(workers), steps);
      && (p.workers[w].pc.Parked? && (p.shutdown || p.workers[w].seen != p.generation) ==>
            Enabled(p, NotifyStart) || Enabled(p, NotifyShutdown))
      && (p.caller.ParkedDone? ==> |Pending(p)| == p.remaining > 0)
      && (p.caller.ParkedDone? && w in Pending(p) ==> CanMove(p, w) || Lapped(p, w))
      && (p.caller.ParkedDone? && p.remaining == 1 && Enabled(p, WorkerFinish(w)) ==>
            Next(p, WorkerFinish(w)).caller.Checking?)
  {
    ReachableInv(workers, steps);
  }

  predicate NobodyLapped(p: Pool)
  {
    forall w: nat :: w < |p.workers| ==> !Lapped(p, w)
  }

  /** The caller's view before the call: no participant's `seen` is the next generation's number. */
  predicate Distinguishable(p: Pool, tasks: nat)
  {
    forall w: nat :: w < |p.workers| && w + 1 < tasks ==> p.workers[w].seen != (p.generation + 1) % U64
  }

  lemma PublishLapsNobodyIff(p: Pool, tasks: nat)
    requires Inv(p) && Enabled(p, Publish(tasks))
    ensures NobodyLapped(Next(p, Publish(tasks))) <==> Distinguishable(p, tasks)
  {
    var q := Next(p, Publish(tasks));
    forall w: nat | w < |p.workers| && w + 1 < tasks
      ensures Lapped(q, w) <==> p.workers[w].seen == (p.generation + 1) % U64
    {
    }
  }

  /** While `run` or `drop` is in progress some thread of the pool can move, unless a
      participant was lapped. */
  lemma SomeThreadMoves(p: Pool) returns (s: Step)
    requires Inv(p) && ((InRun(p) && NobodyLapped(p)) || Dropping(p))
    ensures Internal(s) && Enabled(p, s)
  {
    match p.caller {
      case Published => s := NotifyStart;
      case Running => s := OwnCall(false);
      case Checking(_) => s := CallerCheck;
      case ShuttingDown => s := NotifyShutdown;
      case ParkedDone(_) =>
        var w :| w in Pending(p);
        assert !Lapped(p, w);
        s := if p.workers[w].pc.Ready? then WorkerCheck(w)
             else if p.workers[w].pc.Holding? then WorkerCall(w, false) else WorkerFinish(w);
      case Joining(next) =>
        s := if next < |p.workers| && !p.workers[next].pc.Exited? then WorkerCheck(next) else Join;
    }
  }

  lemma StepLapsNobody(p: Pool, s: Step)
    requires Inv(p) && InRun(p) && NobodyLapped(p) && Enabled(p, s)
    ensures InRun(Next(p, s)) ==> NobodyLapped(Next(p, s))
  {
    var q := Next(p, s);
    forall w: nat | InRun(q) && w < |q.workers|
      ensures !Lapped(q, w)
    {
      assert !Lapped(p, w);
    }
  }

  /** From a call in progress the caller may be scheduled until it has returned. */
  lemma {:induction false} FinishRun(p: Pool) returns (steps: seq<Step>)
    requires Inv(p) && InRun(p) && NobodyLapped(p)
    ensures Schedulable(p, steps) && !InRun(After(p, steps))
    decreases Work(p)
  {
    var s := SomeThreadMoves(p);
    var q := Next(p, s);
    StepKeepsInv(p, s);
    InternalStepsLowerWork(p, s);
    if InRun(q) {
      StepLapsNobody(p, s);
      var rest := FinishRun(q);
      steps := [s] + rest;
      assert steps[1..] == rest;
    } else {
      steps := [s];
      assert steps[1..] == [];
    }
  }

  lemma {:induction false} ScheduleLapsNobody(p: Pool, steps: seq<Step>)
    requires Inv(p) && InRun(p) && NobodyLapped(p) && Schedulable(p, steps)
    requires forall i :: 0 <= i < |steps| ==> !External(steps[i])
    requires InRun(After(p, steps))
    ensures NobodyLapped(After(p, steps))
    decreases |steps|
  {
    if steps != [] {
      var q := Next(p, steps[0]);
      StepKeepsInv(p, steps[0]);
      if InRun(q) {
        StepLapsNobody(p, steps[0]);
        ScheduleLapsNobody(q, steps[1..]);
      } else {
        NoRunWithoutPublish(q, steps[1..]);
      }
    }
  }

  lemma {:induction false} NoRunWithoutPublish(p: Pool, steps: seq<Step>)
    requires !InRun(p) && Schedulable(p, steps)
    requires forall i :: 0 <= i < |steps| ==> !External(steps[i])
    ensures !InRun(After(p, steps))
    decreases |steps|
  {
    if steps != [] { NoRunWithoutPublish(Next(p, steps[0]), steps[1..]); }
  }

  /** Whatever the schedule does, a call of `run` whose participants can tell the new generation
      from the one they saw last returns: while it has not, some thread can move, and at most
      `6 * workers + 4` internal steps plus one per spurious wakeup can have been taken. */
  lemma RunFinishes(p: Pool, tasks: nat, steps: seq<Step>) returns (s: Step)
    requires Inv(p) && Enabled(p, Publish(tasks)) && Distinguishable(p, tasks)
    requires Schedulable(Next(p, Publish(tasks)), steps)
    requires forall i :: 0 <= i < |steps| ==> !External(steps[i])
    requires InRun(After(Next(p, Publish(tasks)), steps))
    ensures Internal(s) && Enabled(After(Next(p, Publish(tasks)), steps), s)
    ensures Count(steps, Internal) < 6 * |p.workers| + 4 + Count(steps, Spurious)
  {
    var q := Next(p, Publish(tasks));
    StepKeepsInv(p, Publish(tasks));
    PublishLapsNobodyIff(p, tasks);
    ScheduleLapsNobody(q, steps);
    ScheduleKeepsInv(q, steps);
    s := SomeThreadMoves(After(q, steps));
    InternalStepsAreBounded(q, steps);
    RanksAreBounded(q.workers, q.generation);
  }

  lemma {:induction false} RanksAreBounded(workers: seq<Worker>, generation: nat)
    ensures Ranks(workers, generation) <= 5 * |workers|
  {
    if workers != [] { RanksAreBounded(workers[1..], generation); }
  }

  /** Dropping the pool finishes too, with no condition: sleeping and lapped workers included. */
  lemma DropFinishes(p: Pool, steps: seq<Step>) returns (s: Step)
    requires Inv(p) && Enabled(p, BeginDrop) && Schedulable(Next(p, BeginDrop), steps)
    requires !After(Next(p, BeginDrop), steps).caller.Dropped?
    ensures Internal(s) && Enabled(After(Next(p, BeginDrop), steps), s)
    ensures Count(steps, Internal) < 7 * |p.workers| + 3 + Count(steps, Spurious)
  {
    var q := Next(p, BeginDrop);
    StepKeepsInv(p, BeginDrop);
    DropStaysDropping(q, steps);
    ScheduleKeepsInv(q, steps);
    s := SomeThreadMoves(After(q, steps));
    InternalStepsAreBounded(q, steps);
    RanksAreBounded(q.workers, q.generation);
  }

  /** When dropping is over, every worker has exited. */
  lemma DropJoinsAll(workers: nat, steps: seq<Step>, w: nat)
    requires Schedulable(Init(workers), steps) && w < |After(Init(workers), steps).workers|
    requires After(Init(workers), steps).caller.Dropped?
    ensures After(Init(workers), steps).workers[w].pc.Exited?
  {
    ReachableInv(workers, steps);
  }

  lemma {:induction false} DropStaysDropping(p: Pool, steps: seq<Step>)
    requires (Dropping(p) || p.caller.Dropped?) && Schedulable(p, steps)
    ensures forall i :: 0 <= i < |steps| ==> !External(steps[i])
    ensures Dropping(After(p, steps)) || After(p, steps).caller.Dropped?
    decreases |steps|
  {
    if steps != [] { DropStaysDropping(Next(p, steps[0]), steps[1..]); }
  }

  // ----- The hang, and exactly when it happens

  lemma StepKeepsLapped(p: Pool, s: Step, w: nat)
    requires Inv(p) && InRun(p) && Lapped(p, w) && Enabled(p, s)
    ensures InRun(Next(p, s)) && Lapped(Next(p, s), w)
  {
    assert w in Pending(p);
  }

  /** A call with a lapped participant never returns, under any schedule. */
  lemma {:induction false} LappedRunHangs(p: Pool, w: nat, steps: seq<Step>)
    requires Inv(p) && InRun(p) && Lapped(p, w) && Schedulable(p, steps)
    ensures InRun(After(p, steps)) && Lapped(After(p, steps), w)
    decreases |steps|
  {
    if steps != [] {
      StepKeepsInv(p, steps[0]);
      StepKeepsLapped(p, steps[0], w);
      LappedRunHangs(Next(p, steps[0]), w, steps[1..]);
    }
  }

  /** `run` can return if and only if every participant can tell the generations apart. */
  lemma RunCanReturnIff(p: Pool, tasks: nat)
    requires Inv(p) && Enabled(p, Publish(tasks))
    ensures Distinguishable(p, tasks) <==>
      exists steps :: Schedulable(Next(p, Publish(tasks)), steps) && !InRun(After(Next(p, Publish(tasks)), steps))
  {
    var q := Next(p, Publish(tasks));
    StepKeepsInv(p, Publish(tasks));
    PublishLapsNobodyIff(p, tasks);
    if NobodyLapped(q) {
      var steps := FinishRun(q);
    } else {
      var w: nat :| Lapped(q, w);
      forall steps | Schedulable(q, steps)
        ensures InRun(After(q, steps))
      {
        LappedRunHangs(q, w, steps);
      }
    }
  }

  /** A pool of three threads after `k` two-task runs during which the third thread never ran. */
  predicate Asleep(p: Pool, k: nat)
  {
    && p.caller.Idle? && !p.shutdown && p.published == k && |p.workers| == 2
    && p.workers[0].pc.Ready? && p.workers[0].lastSeen == k
    && p.workers[1] == Worker(Ready, 0, 0)
  }

  const LEND: seq<Step> := [Publish(2), NotifyStart, OwnCall(false)]
  const WORK: seq<Step> := [WorkerCheck(0), WorkerCall(0, false), WorkerFinish(0), CallerCheck]

  /** The middle of such a run: the caller has done its part, the first worker has not begun. */
  predicate Halfway(p: Pool, k: nat)
  {
    && p.caller == Checking(false) && !p.shutdown && p.published == k && |p.workers| == 2
    && p.workers[0].pc.Ready? && p.workers[0].seen != p.generation
    && p.workers[1] == Worker(Ready, 0, 0)
    && p.tasks == 2 && p.remaining == 1 && |p.runs| > 0 && p.task == Some(|p.runs| - 1)
  }

  lemma LendRound(p: Pool, k: nat)
    requires Generations(p) && Asleep(p, k)
    ensures Schedulable(p, LEND) && Halfway(After(p, LEND), k + 1)
  {
    var p1 := Next(p, Publish(2));
    assert p1.generation == (k + 1) % U64 && p1.workers[0].seen == k % U64;
    var p2 := Next(p1, NotifyStart);
    var p3 := Next(p2, OwnCall(false));
    assert LEND[1..][1..][1..] == [];
  }

  lemma WorkRound(p: Pool, k: nat)
    requires Halfway(p, k)
    ensures Schedulable(p, WORK) && Asleep(After(p, WORK), k)
  {
    var p1 := Next(p, WorkerCheck(0));
    var p2 := Next(p1, WorkerCall(0, false));
    var p3 := Next(p2, WorkerFinish(0));
    var p4 := Next(p3, CallerCheck);
    assert WORK[1..][1..][1..][1..] == [];
  }

  lemma {:induction false} AfterConcat(p: Pool, a: seq<Step>, b: seq<Step>)
    requires Schedulable(p, a) && Schedulable(After(p, a), b)
    ensures Schedulable(p, a + b) && After(p, a + b) == After(After(p, a), b)
    decreases |a|
  {
    if a == [] {
      assert a + b == b;
    } else {
      assert (a + b)[1..] == a[1..] + b;
      AfterConcat(Next(p, a[0]), a[1..], b);
    }
  }

  lemma {:induction false} SleepThrough(k: nat) returns (steps: seq<Step>)
    ensures Schedulable(Init(2), steps) && Asleep(After(Init(2), steps), k)
  {
    if k == 0 {
      steps := [];
    } else {
      var before := SleepThrough(k - 1);
      ReachableInv(2, before);
      LendRound(After(Init(2), before), k - 1);
      AfterConcat(Init(2), before, LEND);
      WorkRound(After(Init(2), before + LEND), k);
      AfterConcat(Init(2), before + LEND, WORK);
      steps := before + LEND + WORK;
    }
  }

  /** The hang is reachable: a worker that sleeps through 2^64 - 1 generations is lapped by the
      next call that needs it. */
  lemma HangIsReachable() returns (steps: seq<Step>)
    ensures Schedulable(Init(2), steps) && Inv(After(Init(2), steps))
    ensures Enabled(After(Init(2), steps), Publish(3)) && !Distinguishable(After(Init(2), steps), 3)
  {
    steps := SleepThrough(U64 - 1);
    ReachableInv(2, steps);
  }
}
