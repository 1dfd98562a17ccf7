/**
 The bounded queue between the microphone capture thread and its receiver.  It keeps the two
 newest frames; a terminal result closes it.

 `State` carries, beside the queue's own fields, a log of what happened to every frame; no
 operation reads the log.
 */
module CaptureQueues {
  import opened Wrappers

  const CAPTURE_QUEUE_FRAMES: nat := 2
  const U64: nat := 0x1_0000_0000_0000_0000

  datatype Frame = Frame(samples: seq<int>, sequence: nat, timestampMs: nat)

  datatype CaptureError =
    | UnsupportedPlatform | PermissionDenied | PermissionLost | InputUnavailable | InputRemoved
    | InvalidCallbackFormat | EngineStartFailed | EngineStopped | ProgressStarved | StartupTimedOut | Cancelled

  type Verdict = Result<(), CaptureError>

  /** `accepted` holds every frame taken into the queue, `received` every frame handed to the
      receiver with its place in `accepted`; the rest are counts, the last two of how often the
      64-bit counters have wrapped. */
  datatype Log = Log(
    accepted: seq<Frame>, received: seq<Frame>, places: seq<nat>,
    evicted: nat, discarded: nat, reportedCaptured: nat, reportedDropped: nat,
    capturedWraps: nat, droppedWraps: nat)

  datatype State = State(
    frames: seq<Frame>, terminal: Option<Verdict>, captured: nat, dropped: nat, log: Log)

  const EMPTY_LOG: Log := Log([], [], [], 0, 0, 0, 0, 0, 0)
  const NEW: State := State([], None, 0, 0, EMPTY_LOG)

  /** `fetch_add(1)` on a 64-bit counter. */
  function Increment(counter: nat): nat { if counter + 1 == U64 then 0 else counter + 1 }

  function Carry(counter: nat): nat { if counter + 1 == U64 then 1 else 0 }

  function Push(s: State, frame: Frame): State
  {
    if s.terminal.Some? then s
    else
      var full := |s.frames| == CAPTURE_QUEUE_FRAMES;
      s.(frames := (if full then s.frames[1..] else s.frames) + [frame],
         captured := Increment(s.captured),
         dropped := if full then Increment(s.dropped) else s.dropped,
         log := s.log.(accepted := s.log.accepted + [frame],
                       evicted := s.log.evicted + if full then 1 else 0,
                       capturedWraps := s.log.capturedWraps + Carry(s.captured),
                       droppedWraps := s.log.droppedWraps + if full then Carry(s.dropped) else 0))
  }

  function Discard(s: State): State
  {
    s.(frames := [], log := s.log.(discarded := s.log.discarded + |s.frames|))
  }

  function Finish(s: State, result: Verdict): State
  {
    var cleared := if result.Err? then Discard(s) else s;
    cleared.(terminal := if s.terminal.None? then Some(result) else s.terminal)
  }

  /** What one pass of `recv` finds; `Pending` waits for a notification. */
  datatype Answer = Delivered(frame: Frame) | Finished(result: Verdict) | Pending

  function RecvAnswer(s: State): Answer
  {
    if s.frames != [] then Delivered(s.frames[0])
    else if s.terminal.Some? then Finished(s.terminal.value)
    else Pending
  }

  function Recv(s: State): State
  {
    if s.frames == [] then s
    else
      var place: nat := if |s.log.accepted| >= |s.frames| then |s.log.accepted| - |s.frames| else 0;
      s.(frames := s.frames[1..],
         log := s.log.(received := s.log.received + [s.frames[0]], places := s.log.places + [place]))
  }

  /** The two counters are read and reset one after the other; anything may happen in between. */
  function TakeCaptured(s: State): State
  {
    s.(captured := 0, log := s.log.(reportedCaptured := s.log.reportedCaptured + s.captured))
  }

  function TakeDropped(s: State): State
  {
    s.(dropped := 0, log := s.log.(reportedDropped := s.log.reportedDropped + s.dropped))
  }

  datatype Op =
    | PushOp(frame: Frame) | FinishOp(result: Verdict) | RecvOp | TakeCapturedOp | TakeDroppedOp | DropReceiverOp

  function Step(s: State, op: Op): State
  {
    match op
    case PushOp(frame) => Push(s, frame)
    case FinishOp(result) => Finish(s, result)
    case RecvOp => Recv(s)
    case TakeCapturedOp => TakeCaptured(s)
    case TakeDroppedOp => TakeDropped(s)
    case DropReceiverOp => Discard(s)
  }

  function After(s: State, ops: seq<Op>): State
    decreases |ops|
  {
    if ops == [] then s else After(Step(s, ops[0]), ops[1..])
  }

  // ----- Every run

  /** The queue holds exactly the newest accepted frames, at most two, in order. */
  predicate Newest(s: State)
  {
    |s.frames| <= CAPTURE_QUEUE_FRAMES && |s.frames| <= |s.log.accepted|
    && s.frames == s.log.accepted[|s.log.accepted| - |s.frames|..]
  }

  /** Every accepted frame was received, evicted, discarded or is still queued, and the two
      counters, with what was read out of them and what was lost to wrapping, count the accepted
      and the evicted ones. */
  predicate Conserved(s: State)
  {
    && |s.log.accepted| == |s.log.received| + s.log.evicted + s.log.discarded + |s.frames|
    && s.captured < U64 && s.log.reportedCaptured + s.captured + U64 * s.log.capturedWraps == |s.log.accepted|
    && s.dropped < U64 && s.log.reportedDropped + s.dropped + U64 * s.log.droppedWraps == s.log.evicted
  }

  /** Received frames are accepted frames, in order, none twice. */
  predicate Subsequence(s: State)
  {
    && |s.log.places| == |s.log.received|
    && (forall i :: 0 <= i < |s.log.places| ==>
          s.log.places[i] < |s.log.accepted| - |s.frames| <= |s.log.accepted|
          && s.log.received[i] == s.log.accepted[s.log.places[i]])
    && (forall i, j :: 0 <= i < j < |s.log.places| ==> s.log.places[i] < s.log.places[j])
  }

  predicate Inv(s: State) { Newest(s) && Conserved(s) && Subsequence(s) }

  lemma StepKeepsNewest(s: State, op: Op)
    requires Newest(s)
    ensures Newest(Step(s, op))
  {
  }

  lemma StepKeepsConserved(s: State, op: Op)
    requires |s.frames| <= CAPTURE_QUEUE_FRAMES && Conserved(s)
    ensures Conserved(Step(s, op))
  {
  }

  lemma StepKeepsSubsequence(s: State, op: Op)
    requires Newest(s) && Subsequence(s)
    ensures Subsequence(Step(s, op))
  {
  }

  lemma {:induction false} RunKeepsInv(s: State, ops: seq<Op>)
    requires Inv(s)
    ensures Inv(After(s, ops))
    decreases |ops|
  {
    if ops != [] {
      StepKeepsNewest(s, ops[0]);
      StepKeepsConserved(s, ops[0]);
      StepKeepsSubsequence(s, ops[0]);
      RunKeepsInv(Step(s, ops[0]), ops[1..]);
    }
  }

  /** Conservation, order and eviction of the oldest hold in every run of a new queue. */
  lemma EveryRun(ops: seq<Op>)
    ensures Inv(After(NEW, ops))
  {
    RunKeepsInv(NEW, ops);
  }

  /** The terminal result is written once. */
  lemma {:induction false} TerminalIsWriteOnce(s: State, ops: seq<Op>)
    requires s.terminal.Some?
    ensures After(s, ops).terminal == s.terminal && After(s, ops).log.accepted == s.log.accepted
    decreases |ops|
  {
    if ops != [] { TerminalIsWriteOnce(Step(s, ops[0]), ops[1..]); }
  }

  lemma {:induction false} EmptyAndClosedStays(s: State, ops: seq<Op>)
    requires s.terminal.Some? && s.frames == []
    ensures After(s, ops).frames == [] && After(s, ops).terminal == s.terminal
    decreases |ops|
  {
    if ops != [] { EmptyAndClosedStays(Step(s, ops[0]), ops[1..]); }
  }

  /** After an error nothing is ever delivered again: every later `recv` reports the terminal
      result, which is the error itself unless the queue had been finished before. */
  lemma NothingAfterAnError(s: State, error: CaptureError, ops: seq<Op>)
    ensures RecvAnswer(After(Finish(s, Err(error)), ops))
         == Finished(if s.terminal.Some? then s.terminal.value else Err(error))
  {
    EmptyAndClosedStays(Finish(s, Err(error)), ops);
  }

  function Recvs(n: nat): seq<Op> { seq(n, _ => RecvOp) }

  lemma {:induction false} RecvsDrain(s: State, n: nat)
    requires n <= |s.frames|
    ensures After(s, Recvs(n)).frames == s.frames[n..] && After(s, Recvs(n)).terminal == s.terminal
    decreases n
  {
    if n > 0 {
      assert Recvs(n)[1..] == Recvs(n - 1);
      RecvsDrain(Recv(s), n - 1);
    }
  }

  /** After a clean finish the queued frames are delivered in order, and only then the end. */
  lemma CleanFinishDrains(s: State, n: nat)
    requires s.terminal.None? && n <= |s.frames|
    ensures RecvAnswer(After(Finish(s, Ok(())), Recvs(n)))
         == if n < |s.frames| then Delivered(s.frames[n]) else Finished(Ok(()))
  {
    RecvsDrain(Finish(s, Ok(())), n);
  }

  // ----- What was handed out, and what was lost

  /** The frames the receiver got, in order, as its calls answered. */
  function Deliveries(s: State, ops: seq<Op>): seq<Frame>
    decreases |ops|
  {
    if ops == [] then []
    else
      (if ops[0].RecvOp? && RecvAnswer(s).Delivered? then [RecvAnswer(s).frame] else [])
      + Deliveries(Step(s, ops[0]), ops[1..])
  }

  /** How many pushes found the queue open and full. */
  function Overflows(s: State, ops: seq<Op>): nat
    decreases |ops|
  {
    if ops == [] then 0
    else
      (if ops[0].PushOp? && s.terminal.None? && |s.frames| == 2 then 1 else 0)
      + Overflows(Step(s, ops[0]), ops[1..])
  }

  /** What the log calls received is what the receiver got; what it calls evicted, and hence what
      the second counter counts, are the overflows, whatever else discards frames. */
  lemma {:induction false} LogIsTrue(s: State, ops: seq<Op>)
    ensures After(s, ops).log.received == s.log.received + Deliveries(s, ops)
    ensures After(s, ops).log.evicted == s.log.evicted + Overflows(s, ops)
    decreases |ops|
  {
    if ops != [] {
      LogIsTrue(Step(s, ops[0]), ops[1..]);
      var now := if ops[0].RecvOp? && RecvAnswer(s).Delivered? then [RecvAnswer(s).frame] else [];
      assert Step(s, ops[0]).log.received == s.log.received + now;
      assert s.log.received + now + Deliveries(Step(s, ops[0]), ops[1..])
          == s.log.received + (now + Deliveries(Step(s, ops[0]), ops[1..]));
    }
  }

  /** The receiver gets pushed frames, in the order they were pushed, none twice. */
  lemma DeliveriesFollowPushes(ops: seq<Op>)
    ensures exists places: seq<nat> ::
      && |places| == |Deliveries(NEW, ops)|
      && (forall i :: 0 <= i < |places| ==>
            places[i] < |Pushed(ops)| && Deliveries(NEW, ops)[i] == Pushed(ops)[places[i]])
      && (forall i, j :: 0 <= i < j < |places| ==> places[i] < places[j])
  {
    EveryRun(ops);
    LogIsTrue(NEW, ops);
    AcceptedArePushed(ops);
    var log := After(NEW, ops).log;
    assert [] + Deliveries(NEW, ops) == Deliveries(NEW, ops);
    assert |log.places| == |Deliveries(NEW, ops)|;
  }

  /** While capture goes on, a call of `recv` takes the oldest queued frame, and waits exactly if
      there is none. */
  lemma RecvTakesOldest(s: State)
    ensures s.frames != [] ==>
      RecvAnswer(s) == Delivered(s.frames[0]) && Recv(s).frames == s.frames[1..]
    ensures RecvAnswer(s).Pending? <==> s.frames == [] && s.terminal.None?
    ensures s.frames == [] && s.terminal.Some? ==> RecvAnswer(s) == Finished(s.terminal.value)
    ensures s.frames == [] ==> Recv(s) == s
  {
  }

  // ----- What was pushed

  function Pushed(ops: seq<Op>): seq<Frame>
  {
    if ops == [] then []
    else
      var n := |ops| - 1;
      Pushed(ops[..n]) + if ops[n].PushOp? then [ops[n].frame] else []
  }

  lemma {:induction false} AfterOneMore(s: State, ops: seq<Op>, op: Op)
    ensures After(s, ops + [op]) == Step(After(s, ops), op)
    decreases |ops|
  {
    if ops == [] {
      assert ops + [op] == [op] && [op][1..] == [];
    } else {
      assert (ops + [op])[0] == ops[0] && (ops + [op])[1..] == ops[1..] + [op];
      AfterOneMore(Step(s, ops[0]), ops[1..], op);
    }
  }

  /** The accepted frames are the pushed ones, up to the first terminal result. */
  lemma {:induction false} AcceptedArePushed(ops: seq<Op>)
    ensures After(NEW, ops).log.accepted <= Pushed(ops)
    ensures After(NEW, ops).terminal.None? ==> After(NEW, ops).log.accepted == Pushed(ops)
  {
    if ops != [] {
      var n := |ops| - 1;
      AcceptedArePushed(ops[..n]);
      AfterOneMore(NEW, ops[..n], ops[n]);
      assert ops[..n] + [ops[n]] == ops;
    }
  }

  // ----- The queue as the object both threads share

  /** `ops` is the history; `Valid` says that the fields are the state it leads to, so that what
      holds of every run holds of every queue. */
  class CaptureQueue {
    var frames: seq<Frame>
    var terminal: Option<Verdict>
    var captured: nat
    var dropped: nat
    ghost var log: Log
    ghost var ops: seq<Op>
    ghost var offered: seq<Frame>

    ghost function View(): State
      reads this
    {
      State(frames, terminal, captured, dropped, log)
    }

    ghost predicate Valid()
      reads this
    {
      View() == After(NEW, ops) && offered == Pushed(ops)
    }

    twostate predicate Did(op: Op)
      reads this
    {
      ops == old(ops) + [op] && View() == Step(old(View()), op) && Valid()
    }

    twostate lemma Record(op: Op)
      requires old(Valid()) && ops == old(ops) + [op] && View() == Step(old(View()), op)
      requires offered == old(offered) + if op.PushOp? then [op.frame] else []
      ensures Did(op)
    {
      AfterOneMore(NEW, old(ops), op);
      assert ops[..|ops| - 1] == old(ops);
    }

    /** Conservation, order and eviction hold of every queue at every moment. */
    lemma IsConserved()
      requires Valid()
      ensures Inv(View()) && log.accepted <= offered
    {
      EveryRun(ops);
      AcceptedArePushed(ops);
    }

    constructor ()
      ensures Valid() && ops == [] && offered == []
    {
      frames, terminal, captured, dropped, log, ops, offered := [], None, 0, 0, EMPTY_LOG, [], [];
    }

    method PushDropOldest(frame: Frame)
      requires Valid()
      modifies this
      ensures Did(PushOp(frame)) && offered == old(offered) + [frame]
    {
      ops, offered := ops + [PushOp(frame)], offered + [frame];
      if terminal.None? {
        log := log.(capturedWraps := log.capturedWraps + Carry(captured));
        captured := Increment(captured);
        if |frames| == CAPTURE_QUEUE_FRAMES {
          frames := frames[1..];
          log := log.(evicted := log.evicted + 1, droppedWraps := log.droppedWraps + Carry(dropped));
          dropped := Increment(dropped);
        }
        frames := frames + [frame];
        log := log.(accepted := log.accepted + [frame]);
      }
      Record(PushOp(frame));
    }

    method FinishCapture(result: Verdict)
      requires Valid()
      modifies this
      ensures Did(FinishOp(result)) && offered == old(offered)
    {
      ops := ops + [FinishOp(result)];
      if result.Err? {
        log := log.(discarded := log.discarded + |frames|);
        frames := [];
      }
      if terminal.None? { terminal := Some(result); }
      Record(FinishOp(result));
    }

    /** One pass of `recv` under the lock. */
    method TryRecv() returns (answer: Answer)
      requires Valid()
      modifies this
      ensures Did(RecvOp) && answer == RecvAnswer(old(View())) && offered == old(offered)
      ensures log.received == old(log.received) + if answer.Delivered? then [answer.frame] else []
    {
      ops := ops + [RecvOp];
      if frames != [] {
        answer := Delivered(frames[0]);
        ghost var place: nat := if |log.accepted| >= |frames| then |log.accepted| - |frames| else 0;
        log := log.(received := log.received + [frames[0]], places := log.places + [place]);
        frames := frames[1..];
      } else if terminal.Some? {
        answer := Finished(terminal.value);
      } else {
        answer := Pending;
      }
      Record(RecvOp);
    }

    /** The first swap of `take_capture_counters`. */
    method SwapCaptured() returns (n: nat)
      requires Valid()
      modifies this
      ensures Did(TakeCapturedOp) && n == old(captured) && offered == old(offered)
      ensures View() == TakeCaptured(old(View()))
    {
      ops := ops + [TakeCapturedOp];
      n := captured;
      log := log.(reportedCaptured := log.reportedCaptured + captured);
      captured := 0;
      Record(TakeCapturedOp);
    }

    /** The second swap. */
    method SwapDropped() returns (n: nat)
      requires Valid()
      modifies this
      ensures Did(TakeDroppedOp) && n == old(dropped) && offered == old(offered)
      ensures View() == TakeDropped(old(View()))
    {
      ops := ops + [TakeDroppedOp];
      n := dropped;
      log := log.(reportedDropped := log.reportedDropped + dropped);
      dropped := 0;
      Record(TakeDroppedOp);
    }

    method DropReceiver()
      requires Valid()
      modifies this
      ensures Did(DropReceiverOp) && offered == old(offered)
    {
      ops := ops + [DropReceiverOp];
      log := log.(discarded := log.discarded + |frames|);
      frames := [];
      Record(DropReceiverOp);
    }

    /** Any operation of either thread. */
    method Perform(op: Op)
      requires Valid()
      modifies this
      ensures Did(op)
    {
      match op {
        case PushOp(frame) => PushDropOldest(frame);
        case FinishOp(result) => FinishCapture(result);
        case RecvOp => var _ := TryRecv();
        case TakeCapturedOp => var _ := SwapCaptured();
        case TakeDroppedOp => var _ := SwapDropped();
        case DropReceiverOp => DropReceiver();
      }
    }

    method PerformAll(more: seq<Op>)
      requires Valid()
      modifies this
      ensures Valid() && ops == old(ops) + more && View() == After(old(View()), more)
    {
      for k := 0 to |more|
        invariant Valid() && ops == old(ops) + more[..k] && View() == After(old(View()), more[..k])
      {
        AfterOneMore(old(View()), more[..k], more[k]);
        assert more[..k + 1] == more[..k] + [more[k]];
        Perform(more[k]);
      }
      assert more[..|more|] == more;
    }

    method PerformThenSwap(between: seq<Op>) returns (n: nat)
      requires Valid()
      modifies this
      ensures Valid() && ops == old(ops) + between + [TakeDroppedOp]
      ensures var meanwhile := After(old(View()), between);
        View() == TakeDropped(meanwhile) && n == meanwhile.dropped
    {
      PerformAll(between);
      n := SwapDropped();
    }

    /** Both swaps; `between` is what the capture thread and others do after the first of them. */
    method TakeCaptureCounters(between: seq<Op>) returns (r: (nat, nat))
      requires Valid()
      modifies this
      ensures Valid() && ops == old(ops) + [TakeCapturedOp] + between + [TakeDroppedOp]
      ensures var meanwhile := After(TakeCaptured(old(View())), between);
        View() == TakeDropped(meanwhile) && r == (old(captured), meanwhile.dropped)
    {
      var taken := SwapCaptured();
      var lost := PerformThenSwap(between);
      return (taken, lost);
    }
  }
}
