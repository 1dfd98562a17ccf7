/**
 Waiting in `recv`: the queue, the notifier beside it, and one receiver.

 The notifier is Tokio's `Notify`, by its documented contract.  `notify_one` wakes a registered
 waiter or, if there is none, leaves one permit; `notify_waiters` wakes every future created
 before it, polled or not, and leaves no permit; a future that was woken by `notify_one` and is
 dropped before it runs passes the wakeup on.  Both sides notify after they have released the
 lock, so anything may happen in between.
 */
module RecvWakeups {
  import opened Wrappers
  import opened CaptureQueues

  datatype ReceiverPc =
    | Outside                    // not in `recv`
    | Created(wave: nat)         // the future exists, the lock is not taken yet
    | Checked(wave: nat)         // the pass under the lock found nothing, the future is not polled yet
    | Waiting                    // registered with the notifier
    | Woken(passOn: bool)        // woken, by `notify_one` if `passOn`, and about to try again

  /** `owedOne` and `owedAll` count notifies whose critical section is over; `waves` counts the
      calls of `notify_waiters`. */
  datatype System = System(queue: State, permit: bool, waves: nat, owedOne: nat, owedAll: nat, receiver: ReceiverPc)

  const START: System := System(NEW, false, 0, 0, 0, Outside)

  datatype Step =
    | PushStep(frame: Frame) | FinishStep(result: Verdict) | NotifyOne | NotifyAll
    | Create | Check | Poll | DropFuture

  predicate Enabled(s: System, step: Step)
  {
    match step
    case PushStep(_) => true
    case FinishStep(_) => true
    case NotifyOne => s.owedOne > 0
    case NotifyAll => s.owedAll > 0
    case Create => s.receiver.Outside? || s.receiver.Woken?
    case Check => s.receiver.Created?
    case Poll => s.receiver.Checked?
    case DropFuture => !s.receiver.Outside?
  }

  function Next(s: System, step: Step): System
    requires Enabled(s, step)
  {
    match step
    case PushStep(frame) =>
      s.(queue := Push(s.queue, frame), owedOne := s.owedOne + if s.queue.terminal.None? then 1 else 0)
    case FinishStep(result) => s.(queue := Finish(s.queue, result), owedAll := s.owedAll + 1)
    case NotifyOne =>
      var told := s.(owedOne := s.owedOne - 1);
      if s.receiver.Waiting? then told.(receiver := Woken(true)) else told.(permit := true)
    case NotifyAll =>
      s.(owedAll := s.owedAll - 1, waves := s.waves + 1,
         receiver := if s.receiver.Waiting? then Woken(false) else s.receiver)
    case Create => s.(receiver := Created(s.waves))
    case Check =>
      if RecvAnswer(s.queue).Pending? then s.(receiver := Checked(s.receiver.wave))
      else s.(queue := Recv(s.queue), receiver := Outside)
    case Poll =>
      if s.waves != s.receiver.wave then s.(receiver := Woken(false))
      else if s.permit then s.(permit := false, receiver := Woken(false))
      else s.(receiver := Waiting)
    case DropFuture =>
      s.(receiver := Outside, permit := s.permit || (s.receiver.Woken? && s.receiver.passOn))
  }

  predicate Schedulable(s: System, steps: seq<Step>)
    decreases |steps|
  {
    steps == [] || (Enabled(s, steps[0]) && Schedulable(Next(s, steps[0]), steps[1..]))
  }

  function After(s: System, steps: seq<Step>): System
    requires Schedulable(s, steps)
    decreases |steps|
  {
    if steps == [] then s else After(Next(s, steps[0]), steps[1..])
  }

  /** `recv` has something to return. */
  predicate Ready(s: System) { !RecvAnswer(s.queue).Pending? }

  predicate Owed(s: System) { s.owedOne > 0 || s.owedAll > 0 }

  /** A receiver that has looked and found nothing will hear of what came since. */
  predicate Heard(s: System)
  {
    && (s.receiver.Created? || s.receiver.Checked? ==> s.receiver.wave <= s.waves)
    && (s.receiver.Checked? && Ready(s) ==> Owed(s) || s.permit || s.receiver.wave < s.waves)
    && (s.receiver.Waiting? && Ready(s) ==> Owed(s))
  }

  lemma StepKeepsHeard(s: System, step: Step)
    requires Heard(s) && Enabled(s, step)
    ensures Heard(Next(s, step))
  {
  }

  lemma {:induction false} ScheduleKeepsHeard(s: System, steps: seq<Step>)
    requires Heard(s) && Schedulable(s, steps)
    ensures Heard(After(s, steps))
    decreases |steps|
  {
    if steps != [] {
      StepKeepsHeard(s, steps[0]);
      ScheduleKeepsHeard(Next(s, steps[0]), steps[1..]);
    }
  }

  /** In every schedule a waiting receiver with something to receive has a notify still to come,
      and whichever comes next wakes it. */
  lemma NoWakeupIsLost(steps: seq<Step>, step: Step)
    requires Schedulable(START, steps)
    ensures var s := After(START, steps);
      && (s.receiver.Waiting? && Ready(s) ==> Enabled(s, NotifyOne) || Enabled(s, NotifyAll))
      && (s.receiver.Waiting? && (step.NotifyOne? || step.NotifyAll?) && Enabled(s, step) ==>
            Next(s, step).receiver.Woken?)
  {
    ScheduleKeepsHeard(START, steps);
  }

  // ----- And it gets there

  /** The receiver's own steps and owed notifies left before it has returned. */
  function Left(s: System): nat
  {
    (match s.receiver
     case Outside => 0
     case Created(_) => 1
     case Checked(_) => 4
     case Waiting => 3
     case Woken(_) => 2) + 4 * (s.owedOne + s.owedAll)
  }

  predicate Helps(step: Step)
  {
    step.NotifyOne? || step.NotifyAll? || step.Create? || step.Check? || step.Poll?
  }

  /** With something to receive and `recv` in progress, a notify or a step of the receiver is
      enabled that brings its return closer. */
  lemma ReceiverGetsThere(s: System) returns (step: Step)
    requires Heard(s) && Ready(s) && !s.receiver.Outside?
    ensures Helps(step) && Enabled(s, step) && Left(Next(s, step)) < Left(s)
    ensures Next(s, step).receiver.Outside? || (Heard(Next(s, step)) && Ready(Next(s, step)))
  {
    step := match s.receiver
      case Created(_) => Check
      case Checked(_) => Poll
      case Waiting => if s.owedOne > 0 then NotifyOne else NotifyAll
      case Woken(_) => Create;
    StepKeepsHeard(s, step);
  }

  predicate AllHelp(steps: seq<Step>) { forall i :: 0 <= i < |steps| ==> Helps(steps[i]) }

  /** In `recv`, with something to return. */
  predicate InRecv(s: System) { Heard(s) && Ready(s) && !s.receiver.Outside? }

  /** So `recv` returns once there is something to return. */
  lemma {:induction false} RecvReturns(s: System) returns (steps: seq<Step>)
    requires InRecv(s)
    ensures Schedulable(s, steps) && After(s, steps).receiver.Outside?
    ensures AllHelp(steps) && |steps| <= Left(s)
    decreases Left(s)
  {
    var step := ReceiverGetsThere(s);
    steps := [step];
    assert [step][1..] == [];
    if !Next(s, step).receiver.Outside? {
      var more := RecvReturns(Next(s, step));
      steps := [step] + more;
      assert steps[1..] == more;
    }
  }

  /** `recv` returns only with an answer: the only step that leaves it, short of dropping it, is a
      pass that finds the queue ready, and that pass takes what it returns. */
  lemma ReturnsOnlyWithAnswer(s: System, step: Step)
    requires Enabled(s, step) && !s.receiver.Outside? && Next(s, step).receiver.Outside?
    ensures step.DropFuture? || (step.Check? && Ready(s) && Next(s, step).queue == Recv(s.queue))
    ensures step.DropFuture? ==> Next(s, step).queue == s.queue
  {
  }
}
