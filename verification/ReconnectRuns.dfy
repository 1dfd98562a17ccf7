/** What every history of calls of the reconnect controller satisfies. */
module ReconnectRuns {
  import opened Wrappers
  import opened Reconnect

  function Last<T>(s: seq<T>): T
    requires s != []
  {
    s[|s| - 1]
  }

  function Front<T>(s: seq<T>): seq<T>
    requires s != []
  {
    s[..|s| - 1]
  }

  predicate InOutage(st: State) { st.phase.Reconnecting? || st.phase.Resuming? }

  /** What holds between any two calls. */
  predicate Inv(st: State)
  {
    && (st.credential.Some? ==>
          var c := st.credential.value;
          c.grant != "" && 0 < c.window <= MAX_RECONNECT_WINDOW
          && c.identity == st.identity && c.holderNonce == st.holderNonce)
    && (st.credential.None? ==> st.detachedAt.None? && st.detachDeadline.None?)
    && (InOutage(st) ==>
          st.credential.Some? && st.detachedAt.Some? && st.detachDeadline == Some(st.phase.deadline))
    && (st.phase.Reconnecting? ==> st.phase.nextRetry < st.phase.deadline)
    && (st.phase.Cancelled? || st.phase.Terminal? ==> st.credential.None?)
    && (st.detachDeadline.Some? ==> st.detachedAt.Some?)
    && 1 <= st.nextAttempt <= U32_MAX
  }

  lemma StepKeepsInv(st: State, call: Call)
    requires Inv(st)
    ensures Inv(Step(st, call)) && Step(st, call).identity == st.identity && Step(st, call).generation == st.generation
  {
  }

  /** The invariant holds after every sequence of calls on a fresh controller. */
  lemma {:induction false} HistoryKeepsInv(init: State, calls: seq<Call>)
    requires Inv(init)
    ensures Inv(After(init, calls))
    ensures After(init, calls).identity == init.identity && After(init, calls).generation == init.generation
  {
    if calls != [] {
      HistoryKeepsInv(init, Front(calls));
      StepKeepsInv(After(init, Front(calls)), Last(calls));
    }
  }

  lemma EveryHistory(generation: nat, identity: Identity, holderNonce: string, calls: seq<Call>)
    ensures Inv(After(New(generation, identity, holderNonce), calls))
  {
    HistoryKeepsInv(New(generation, identity, holderNonce), calls);
  }

  // ----- Fail closed

  /** In a reachable `Reconnecting` state the outcome of `take_due` is decided by the arguments
      and the clock alone: its three fallbacks for missing anchors are dead. */
  lemma TakeDueOutcome(st: State, now: Duration, generation: nat, identity: Identity)
    requires Inv(st) && st.phase.Reconnecting?
    ensures var (after, r) := TakeDue(st, now, generation, identity);
      && (r == Err(GenerationMismatch) <==> generation != st.generation || identity != st.identity)
      && (r == Err(Expired) <==>
            generation == st.generation && identity == st.identity && now >= st.phase.deadline)
      && (r.Ok? && r.value.Some? <==>
            generation == st.generation && identity == st.identity && st.phase.nextRetry <= now < st.phase.deadline)
      && (r.Err? ==> after.phase.Terminal? && after.credential.None?)
      && (r == Ok(None) ==> after == st)
  {
  }

  /** The calls that can put a credential back after it was dropped. */
  predicate Reopens(call: Call)
  {
    call.AcceptInitialCall? && !call.resumed && Acceptable(call.grant, call.window)
  }

  lemma {:induction false} NoCredentialUntilReopened(st: State, more: seq<Call>)
    requires Inv(st) && st.credential.None?
    requires forall i :: 0 <= i < |more| ==> !Reopens(more[i])
    ensures After(st, more).credential.None?
  {
    if more != [] {
      NoCredentialUntilReopened(st, Front(more));
      HistoryKeepsInv(st, Front(more));
    }
  }

  /** After a cancel or a terminal failure no attempt is ever issued, whatever is called, until
      a fresh authentication brings a new grant. */
  lemma ClosedUntilReopened(st: State, more: seq<Call>, call: Call)
    requires Inv(st) && (st.phase.Cancelled? || st.phase.Terminal?)
    requires forall i :: 0 <= i < |more| ==> !Reopens(more[i])
    ensures Issued(After(st, more), call).None?
  {
    NoCredentialUntilReopened(st, more);
    HistoryKeepsInv(st, more);
  }

  // ----- The grant an attempt carries

  /** What a host hands over when it accepts: the grant, its window and the session's identifier. */
  datatype Handover = Handover(grant: string, window: Duration, sid: string)

  /** What a call makes the current handover, if it succeeds in doing so. */
  function Accepted(st: State, call: Call): Option<Handover>
  {
    match call
    case AcceptInitialCall(grant, window, resumed, sid) =>
      if AcceptInitial(st, grant, window, resumed, sid).1 == Ok(Enabled)
      then Some(Handover(grant.value, window.value, sid)) else None
    case AcceptResumeCall(grant, window, resumed, sid, now) =>
      if AcceptResume(st, grant, window, resumed, sid, now).1.Ok?
      then Some(Handover(grant.value, window.value, sid)) else None
    case AcceptRefreshCall(grant, window, resumed, sid) =>
      if AcceptRefresh(st, grant, window, resumed, sid).1.Ok?
      then Some(Handover(grant.value, window.value, sid)) else None
    case _ => None
  }

  function LastAccepted(init: State, calls: seq<Call>): Option<Handover>
  {
    if calls == [] then None
    else
      var accepted := Accepted(After(init, Front(calls)), Last(calls));
      if accepted.Some? then accepted else LastAccepted(init, Front(calls))
  }

  function Holds(c: Credential): Handover { Handover(c.grant, c.window, c.previousSid) }

  lemma StepHoldsGrant(st: State, call: Call)
    requires Inv(st) && Step(st, call).credential.Some?
    ensures match Accepted(st, call)
      case Some(handover) => Holds(Step(st, call).credential.value) == handover
      case None => Step(st, call).credential == st.credential
  {
  }

  /** A held credential is the last one a host handed over: grants rotate and are never mixed. */
  lemma {:induction false} HeldGrantIsLastAccepted(init: State, calls: seq<Call>)
    requires Inv(init) && init.credential.None? && After(init, calls).credential.Some?
    ensures LastAccepted(init, calls) == Some(Holds(After(init, calls).credential.value))
  {
    if calls != [] {
      var before := After(init, Front(calls));
      HistoryKeepsInv(init, Front(calls));
      StepHoldsGrant(before, Last(calls));
      if Accepted(before, Last(calls)).None? {
        HeldGrantIsLastAccepted(init, Front(calls));
      }
    }
  }

  // ----- The number an attempt carries

  predicate Attaches(st: State, call: Call)
  {
    Accepted(st, call).Some? ||
    (call.AcceptInitialCall? && AcceptInitial(st, call.grant, call.window, call.resumed, call.sid).1.Ok?)
  }

  predicate Schedules(st: State, call: Call)
  {
    call.ScheduleCall? && Schedule(st, call.lastError, call.now, call.delay).1.Ok?
  }

  /** How many retries were scheduled since a host last accepted. */
  function RetriesSinceAccept(init: State, calls: seq<Call>): nat
  {
    if calls == [] then 0
    else
      var st := After(init, Front(calls));
      if Attaches(st, Last(calls)) then 0
      else RetriesSinceAccept(init, Front(calls)) + if Schedules(st, Last(calls)) then 1 else 0
  }

  predicate Numbered(st: State, retries: nat)
  {
    st.nextAttempt == Min(retries + 1, U32_MAX) && (InOutage(st) ==> st.phase.attempt == Min(retries, U32_MAX))
  }

  lemma StepIsNumbered(st: State, call: Call, retries: nat)
    requires Numbered(st, retries)
    ensures Numbered(Step(st, call),
                     if Attaches(st, call) then 0 else retries + if Schedules(st, call) then 1 else 0)
  {
  }

  lemma {:induction false} AttemptsAreNumbered(init: State, calls: seq<Call>)
    requires Numbered(init, 0)
    ensures Numbered(After(init, calls), RetriesSinceAccept(init, calls))
  {
    if calls != [] {
      AttemptsAreNumbered(init, Front(calls));
      StepIsNumbered(After(init, Front(calls)), Last(calls), RetriesSinceAccept(init, Front(calls)));
    }
  }

  // ----- The nonce an attempt carries

  predicate PastDeadline(st: State, now: nat) { InOutage(st) && now >= st.phase.deadline }

  /** With a credential held: the deadline cannot be represented, has passed, or comes before the
      retry would. */
  predicate TooLate(st: State, now: nat, delay: Option<Duration>)
  {
    st.credential.Some? &&
    var deadline := if st.detachDeadline.Some? then st.detachDeadline.value else now + st.credential.value.window;
    || deadline > MAX_DURATION
    || now >= deadline
    || (delay.Some? && Min(now + delay.value, MAX_DURATION) >= deadline)
  }

  /** The calls that make the controller forget its secret, by what is known before the call. */
  predicate DropsSecret(st: State, call: Call)
  {
    match call
    case ManualCancelCall => true
    case TerminalCall => true
    case ExpireCall(now) => PastDeadline(st, now)
    case AcceptResumeCall(_, _, _, _, now) => PastDeadline(st, now)
    case TakeDueCall(now, generation, identity) =>
      st.phase.Reconnecting? &&
      (generation != st.generation || identity != st.identity || now >= st.phase.deadline)
    case ScheduleCall(_, now, delay) => TooLate(st, now, delay)
    case _ => false
  }

  predicate SecretDropped(init: State, calls: seq<Call>)
  {
    calls != [] && (DropsSecret(After(init, Front(calls)), Last(calls)) || SecretDropped(init, Front(calls)))
  }

  lemma StepKeepsNonceIff(st: State, call: Call)
    requires Inv(st)
    ensures Step(st, call).holderNonce == if DropsSecret(st, call) then "" else st.holderNonce
  {
  }

  /** The controller's nonce is the one it was made with until a call drops it; it never returns,
      not even with a new grant. */
  lemma {:induction false} NonceIsGivenOrGone(init: State, calls: seq<Call>)
    requires Inv(init)
    ensures After(init, calls).holderNonce == if SecretDropped(init, calls) then "" else init.holderNonce
  {
    if calls != [] {
      HistoryKeepsInv(init, Front(calls));
      NonceIsGivenOrGone(init, Front(calls));
      StepKeepsNonceIff(After(init, Front(calls)), Last(calls));
    }
  }

  /** A controller that is cancelled and then accepted again hands out an empty nonce. */
  lemma EmptyNonceExists(identity: Identity, nonce: string) returns (calls: seq<Call>, call: Call)
    ensures var issued := Issued(After(New(7, identity, nonce), calls), call);
      issued.Some? && issued.value.holderNonce == ""
  {
    var init := New(7, identity, nonce);
    var c0 := ManualCancelCall;
    var c1 := AcceptInitialCall(Some("g"), Some(1000 * MS), false, "sid");
    var c2 := ScheduleCall("reset", 0, Some(125 * MS));
    calls, call := [c0, c1, c2], TakeDueCall(125 * MS, 7, identity);
    assert calls[..2] == [c0, c1] && calls[..2][..1] == [c0] && calls[..2][..1][..0] == [];
    assert After(init, [c0]) == Step(init, c0);
    assert After(init, [c0, c1]) == Step(Step(init, c0), c1);
    assert After(init, calls) == Step(Step(Step(init, c0), c1), c2);
  }

  // ----- One outage

  lemma StepKeepsDeadline(st: State, call: Call)
    requires Inv(st) && InOutage(st) && InOutage(Step(st, call))
    ensures Step(st, call).phase.deadline == st.phase.deadline && Step(st, call).detachedAt == st.detachedAt
  {
  }

  /** While an outage lasts, neither its start nor its deadline moves. */
  lemma {:induction false} DeadlineNeverMoves(st: State, more: seq<Call>)
    requires Inv(st) && InOutage(st)
    requires forall i :: 0 <= i <= |more| ==> InOutage(After(st, more[..i]))
    ensures InOutage(After(st, more))
    ensures After(st, more).phase.deadline == st.phase.deadline && After(st, more).detachedAt == st.detachedAt
  {
    assert more[..|more|] == more;
    if more != [] {
      forall i | 0 <= i <= |Front(more)|
        ensures InOutage(After(st, Front(more)[..i]))
      {
        assert Front(more)[..i] == more[..i];
      }
      DeadlineNeverMoves(st, Front(more));
      HistoryKeepsInv(st, Front(more));
      StepKeepsDeadline(After(st, Front(more)), Last(more));
    }
  }

  /** The jitter source answered every time. */
  predicate AlwaysAnswered(calls: seq<Call>)
  {
    forall i :: 0 <= i < |calls| && calls[i].ScheduleCall? ==> calls[i].delay.Some?
  }

  /** Both anchors are set by the same call, and only for an outage. */
  predicate Anchored(st: State)
  {
    && (st.detachedAt.Some? <==> InOutage(st))
    && (st.detachDeadline.Some? <==> InOutage(st))
    && (InOutage(st) ==> st.credential.Some? && st.phase.deadline == st.detachedAt.value + st.credential.value.window)
  }

  lemma AnsweredStepStaysAnchored(st: State, call: Call)
    requires Inv(st) && Anchored(st) && (call.ScheduleCall? ==> call.delay.Some?)
    ensures Anchored(Step(st, call))
  {
  }

  lemma {:induction false} AnsweredHistoriesAreAnchored(init: State, calls: seq<Call>)
    requires Inv(init) && Anchored(init) && AlwaysAnswered(calls)
    ensures Anchored(After(init, calls))
  {
    if calls != [] {
      HistoryKeepsInv(init, Front(calls));
      AnsweredHistoriesAreAnchored(init, Front(calls));
      AnsweredStepStaysAnchored(After(init, Front(calls)), Last(calls));
    }
  }

  /** When the outage a history ends in began: the moment of its first `schedule`. */
  function LossTime(init: State, calls: seq<Call>): Option<nat>
  {
    if calls == [] || !InOutage(After(init, calls)) then None
    else if InOutage(After(init, Front(calls))) then LossTime(init, Front(calls))
    else if Last(calls).ScheduleCall? then Some(Last(calls).now)
    else None
  }

  lemma OutageBegins(st: State, call: Call)
    requires Inv(st) && Anchored(st) && !InOutage(st) && InOutage(Step(st, call))
    ensures call.ScheduleCall? && Step(st, call).detachedAt == Some(call.now)
  {
  }

  lemma {:induction false} AnchorIsTheLoss(init: State, calls: seq<Call>)
    requires Inv(init) && Anchored(init) && !InOutage(init) && AlwaysAnswered(calls) && InOutage(After(init, calls))
    ensures After(init, calls).detachedAt == LossTime(init, calls)
  {
    if calls != [] {
      var before := After(init, Front(calls));
      HistoryKeepsInv(init, Front(calls));
      AnsweredHistoriesAreAnchored(init, Front(calls));
      if InOutage(before) {
        AnchorIsTheLoss(init, Front(calls));
        StepKeepsDeadline(before, Last(calls));
      } else {
        OutageBegins(before, Last(calls));
      }
    }
  }

  /** An attempt can be late exactly if the deadline lies more than a window after the loss. */
  lemma LateAttemptPossibleIff(st: State)
    requires Inv(st) && st.phase.Reconnecting?
    ensures (exists now: Duration ::
               var issued := Issued(st, TakeDueCall(now, st.generation, st.identity));
               issued.Some? && issued.value.gap >= st.credential.value.window)
       <==> st.phase.deadline > st.detachedAt.value + st.credential.value.window
  {
    var edge := st.detachedAt.value + st.credential.value.window;
    if st.phase.deadline > edge {
      var now: Duration := if st.phase.nextRetry > edge then st.phase.nextRetry else edge;
      var issued := Issued(st, TakeDueCall(now, st.generation, st.identity));
      assert issued.Some? && issued.value.gap >= st.credential.value.window;
    }
  }

  /** A loss anchor without a deadline: what an attached refresh leaves behind when it follows a
      `schedule` that failed for want of randomness. */
  predicate Stale(st: State) { st.detachedAt.Some? && st.detachDeadline.None? }

  predicate Coherent(st: State)
  {
    st.detachDeadline.Some? ==>
      st.credential.Some? && st.detachedAt.Some?
      && st.detachDeadline.value <= st.detachedAt.value + st.credential.value.window
  }

  /** Without the promise that the jitter source answers, a successful `schedule` keeps the
      deadline within one window of the loss exactly if it did not find a stale earlier anchor. */
  lemma ScheduleIsCoherentIff(st: State, lastError: string, now: Duration, delay: Option<Duration>)
    requires Inv(st) && Coherent(st) && Schedule(st, lastError, now, delay).1.Ok?
    ensures Coherent(Schedule(st, lastError, now, delay).0) <==> !(Stale(st) && now > st.detachedAt.value)
  {
  }

  /** Every other call keeps coherence, and a stale anchor has only the one origin. */
  lemma OtherCallsStayCoherent(st: State, call: Call)
    requires Inv(st) && Coherent(st) && !call.ScheduleCall?
    ensures Coherent(Step(st, call))
    ensures Stale(Step(st, call)) && !Stale(st) ==>
      call.AcceptRefreshCall? && st.phase.Connected? && st.detachDeadline.Some?
  {
  }

  // ----- Exactly when attempts are timely, over whole histories

  /** A `schedule` that takes its deadline from a later moment than its loss anchor. */
  predicate FindsStale(st: State, call: Call) { call.ScheduleCall? && Stale(st) && call.now > st.detachedAt.value }

  /** The deadline in force was set by such a `schedule`. */
  predicate StaleAnchored(init: State, calls: seq<Call>)
  {
    && calls != [] && After(init, calls).detachDeadline.Some?
    && if After(init, Front(calls)).detachDeadline.Some? then StaleAnchored(init, Front(calls))
       else FindsStale(After(init, Front(calls)), Last(calls))
  }

  lemma DeadlineStays(st: State, call: Call)
    requires Inv(st) && st.detachDeadline.Some? && Step(st, call).detachDeadline.Some?
    ensures Step(st, call).detachDeadline == st.detachDeadline
    ensures Step(st, call).detachedAt == st.detachedAt && Step(st, call).credential == st.credential
  {
  }

  lemma DeadlineIsSet(st: State, call: Call)
    requires Inv(st) && st.detachDeadline.None? && Step(st, call).detachDeadline.Some?
    ensures call.ScheduleCall? && (Coherent(Step(st, call)) <==> !FindsStale(st, call))
  {
  }

  /** In every history the deadline lies within one window of the loss anchor exactly if the
      `schedule` that set it did not find an older anchor. */
  lemma {:induction false} CoherentIff(init: State, calls: seq<Call>)
    requires Inv(init) && init.detachDeadline.None?
    ensures Coherent(After(init, calls)) <==> !StaleAnchored(init, calls)
  {
    if calls != [] {
      var before := After(init, Front(calls));
      HistoryKeepsInv(init, Front(calls));
      if After(init, calls).detachDeadline.Some? {
        if before.detachDeadline.Some? {
          CoherentIff(init, Front(calls));
          DeadlineStays(before, Last(calls));
        } else {
          DeadlineIsSet(before, Last(calls));
        }
      }
    }
  }

  /** The gap of the attempt that `take_due` would issue at `now`, if any, is below the window. */
  predicate TimelyAt(st: State, now: Duration)
  {
    var issued := Issued(st, TakeDueCall(now, st.generation, st.identity));
    issued.Some? ==> st.credential.Some? && issued.value.gap < st.credential.value.window
  }

  /** With a retry scheduled, every attempt that can be issued is timely exactly if the deadline in
      force was not set at an older anchor. */
  lemma TimelyIff(generation: nat, identity: Identity, nonce: string, calls: seq<Call>)
    requires After(New(generation, identity, nonce), calls).phase.Reconnecting?
    ensures var init := New(generation, identity, nonce);
      (forall now: Duration :: TimelyAt(After(init, calls), now)) <==> !StaleAnchored(init, calls)
  {
    var init := New(generation, identity, nonce);
    var st := After(init, calls);
    HistoryKeepsInv(init, calls);
    CoherentIff(init, calls);
    LateAttemptPossibleIff(st);
    if StaleAnchored(init, calls) {
      var now: Duration :|
        var issued := Issued(st, TakeDueCall(now, st.generation, st.identity));
        issued.Some? && issued.value.gap >= st.credential.value.window;
      assert !TimelyAt(st, now);
    }
  }

  /** No `schedule` of the history found an older anchor. */
  predicate NoStaleSchedule(init: State, calls: seq<Call>)
  {
    calls != [] ==>
      NoStaleSchedule(init, Front(calls)) && !FindsStale(After(init, Front(calls)), Last(calls))
  }

  lemma {:induction false} NoStaleScheduleNoStaleAnchor(init: State, calls: seq<Call>)
    requires NoStaleSchedule(init, calls)
    ensures !StaleAnchored(init, calls)
  {
    if calls != [] { NoStaleScheduleNoStaleAnchor(init, Front(calls)); }
  }

  /** A `schedule` that succeeds at an older anchor always makes a late attempt possible. */
  lemma StaleScheduleIsLate(generation: nat, identity: Identity, nonce: string, calls: seq<Call>, call: Call)
    requires FindsStale(After(New(generation, identity, nonce), calls), call)
    requires Schedules(After(New(generation, identity, nonce), calls), call)
    ensures exists now: Duration :: !TimelyAt(After(New(generation, identity, nonce), calls + [call]), now)
  {
    var init := New(generation, identity, nonce);
    assert Front(calls + [call]) == calls && Last(calls + [call]) == call;
    assert StaleAnchored(init, calls + [call]);
    TimelyIff(generation, identity, nonce, calls + [call]);
  }

  lemma {:induction false} AnsweredIsNeverStale(init: State, calls: seq<Call>)
    requires Inv(init) && Anchored(init) && AlwaysAnswered(calls)
    ensures NoStaleSchedule(init, calls)
  {
    if calls != [] {
      AnsweredIsNeverStale(init, Front(calls));
      AnsweredHistoriesAreAnchored(init, Front(calls));
    }
  }

  /** Every attempt of every history carries the last accepted grant and session, the nonce the
      controller was made with unless a call has dropped it, its identity and generation, and its
      number.  Its gap is below the granted window unless the deadline was set at an older anchor;
      and if the jitter source always answers it is the time since the loss. */
  lemma AttemptsAreTimely(generation: nat, identity: Identity, nonce: string, calls: seq<Call>, call: Call)
    requires Issued(After(New(generation, identity, nonce), calls), call).Some?
    ensures var init := New(generation, identity, nonce);
      var st := After(init, calls);
      var a := Issued(st, call).value;
      && st.credential.Some? && st.credential.value.window <= MAX_RECONNECT_WINDOW
      && LastAccepted(init, calls) == Some(Handover(a.grant, st.credential.value.window, a.previousSid))
      && a.generation == generation && a.identity == identity
      && a.holderNonce == (if SecretDropped(init, calls) then "" else nonce)
      && a.attempt == Min(RetriesSinceAccept(init, calls), U32_MAX)
      && (!StaleAnchored(init, calls) ==> a.gap < st.credential.value.window)
      && (AlwaysAnswered(calls) ==> !StaleAnchored(init, calls) && LossTime(init, calls).Some?)
      && (AlwaysAnswered(calls) && LossTime(init, calls).value <= call.now ==>
            LossTime(init, calls).value + a.gap == call.now)
  {
    var init := New(generation, identity, nonce);
    HistoryKeepsInv(init, calls);
    HeldGrantIsLastAccepted(init, calls);
    NonceIsGivenOrGone(init, calls);
    AttemptsAreNumbered(init, calls);
    CoherentIff(init, calls);
    if AlwaysAnswered(calls) {
      AnsweredIsNeverStale(init, calls);
      NoStaleScheduleNoStaleAnchor(init, calls);
      AnchorIsTheLoss(init, calls);
    }
  }

  // ----- Where an anchor without a deadline comes from

  predicate Unanswered(st: State, call: Call)
  {
    call.ScheduleCall? && Schedule(st, call.lastError, call.now, call.delay).1 == Err(RandomnessUnavailable)
  }

  /** A deadline outside an outage was set by a `schedule` the jitter source did not answer. */
  lemma {:induction false} AttachedDeadlineOrigin(init: State, calls: seq<Call>) returns (i: nat)
    requires Inv(init) && init.detachDeadline.None?
    requires !InOutage(After(init, calls)) && After(init, calls).detachDeadline.Some?
    ensures i < |calls| && Unanswered(After(init, calls[..i]), calls[i])
  {
    var before := After(init, Front(calls));
    HistoryKeepsInv(init, Front(calls));
    if !InOutage(before) && before.detachDeadline.Some? {
      i := AttachedDeadlineOrigin(init, Front(calls));
      assert Front(calls)[..i] == calls[..i];
    } else {
      i := |calls| - 1;
    }
  }

  /** A stale anchor has one origin: an unanswered `schedule`, then a successful refresh. */
  lemma {:induction false} StaleOrigin(init: State, calls: seq<Call>) returns (i: nat, j: nat)
    requires Inv(init) && !Stale(init) && init.detachDeadline.None? && Stale(After(init, calls))
    ensures i < j < |calls| && Unanswered(After(init, calls[..i]), calls[i])
    ensures calls[j].AcceptRefreshCall? && Accepted(After(init, calls[..j]), calls[j]).Some?
  {
    var before := After(init, Front(calls));
    HistoryKeepsInv(init, Front(calls));
    if Stale(before) {
      i, j := StaleOrigin(init, Front(calls));
      assert Front(calls)[..i] == calls[..i] && Front(calls)[..j] == calls[..j];
    } else {
      i := AttachedDeadlineOrigin(init, Front(calls));
      j := |calls| - 1;
      assert Front(calls)[..i] == calls[..i];
    }
  }

  /** The failing family is real: an unanswered `schedule`, a refresh, and a later loss hand out
      an attempt whose gap is ten times the window. */
  lemma LateAttemptExists() returns (calls: seq<Call>, call: Call)
    ensures var st := After(New(7, Identity("e", "s", "t"), "nonce"), calls);
      Issued(st, call).Some? && Issued(st, call).value.gap > 10 * st.credential.value.window
  {
    var id := Identity("e", "s", "t");
    var init := New(7, id, "nonce");
    var c0 := AcceptInitialCall(Some("g1"), Some(1000 * MS), false, "sid");
    var c1 := ScheduleCall("reset", 0, None);
    var c2 := AcceptRefreshCall(Some("g2"), Some(1000 * MS), false, "sid");
    var c3 := ScheduleCall("reset", 10_000 * MS, Some(125 * MS));
    calls, call := [c0, c1, c2, c3], TakeDueCall(10_125 * MS, 7, id);
    assert calls[..3] == [c0, c1, c2] && calls[..3][..2] == [c0, c1] && calls[..3][..2][..1] == [c0];
    assert calls[..3][..2][..1][..0] == [];
    var s1 := Step(init, c0);
    var s2 := Step(s1, c1);
    var s3 := Step(s2, c2);
    assert After(init, [c0]) == s1;
    assert After(init, [c0, c1]) == s2;
    assert After(init, [c0, c1, c2]) == s3;
    assert s3.detachedAt == Some(0) && s3.detachDeadline == None;
  }

  // ----- How many attempts one outage admits

  /** The moment a call was made, if it is given one. */
  function Time(call: Call): Option<Duration>
  {
    match call
    case AcceptResumeCall(_, _, _, _, now) => Some(now)
    case ScheduleCall(_, now, _) => Some(now)
    case RetryNowCall(now) => Some(now)
    case TakeDueCall(now, _, _) => Some(now)
    case ExpireCall(now) => Some(now)
    case _ => None
  }

  /** The latest moment in a history; 0 before any. */
  function Clock(calls: seq<Call>): nat
  {
    if calls == [] then 0
    else if Time(Last(calls)).Some? then Time(Last(calls)).value
    else Clock(Front(calls))
  }

  /** The clock never runs backwards. */
  predicate Monotone(calls: seq<Call>)
  {
    calls == [] ||
    (Monotone(Front(calls)) && (Time(Last(calls)).Some? ==> Clock(Front(calls)) <= Time(Last(calls)).value))
  }

  /** The jitter source kept its contract: every answer lies within the bounds asked for. */
  predicate JitterKept(init: State, calls: seq<Call>)
  {
    calls != [] ==>
      && JitterKept(init, Front(calls))
      && (Last(calls).ScheduleCall? ==>
            var attempt := After(init, Front(calls)).nextAttempt;
            Last(calls).delay.Some? && Half(attempt) <= Last(calls).delay.value <= BackoffBase(attempt))
  }

  predicate NoRetryNow(calls: seq<Call>)
  {
    forall i :: 0 <= i < |calls| ==> !calls[i].RetryNowCall?
  }

  /** A monotone clock, a jitter source that keeps its contract, and no `retry_now`. */
  predicate PacedHistory(init: State, calls: seq<Call>)
  {
    Monotone(calls) && JitterKept(init, calls) && NoRetryNow(calls)
  }

  /** Attempts issued in the outage the history ends in; 0 outside an outage. */
  function AttemptsInOutage(init: State, calls: seq<Call>): nat
  {
    if calls == [] || !InOutage(After(init, calls)) then 0
    else
      AttemptsInOutage(init, Front(calls))
      + if Issued(After(init, Front(calls)), Last(calls)).Some? then 1 else 0
  }

  /** The least time the first `n` delays of an outage can take together. */
  function LeastWait(n: nat): nat
  {
    if n == 0 then 0 else LeastWait(n - 1) + Half(n)
  }

  lemma {:induction false} LeastWaitClosedForm(n: nat)
    requires n >= 5
    ensures LeastWait(n) == 3875 * MS + (n - 5) * (2500 * MS)
  {
    HalfValues(n);
    if n == 5 {
      HalfValues(1); HalfValues(2); HalfValues(3); HalfValues(4);
      assert LeastWait(1) == 125 * MS;
      assert LeastWait(2) == 375 * MS;
      assert LeastWait(3) == 875 * MS;
      assert LeastWait(4) == 1875 * MS;
    } else {
      LeastWaitClosedForm(n - 1);
    }
  }

  lemma HalfIsMonotone(a: nat, b: nat)
    requires 1 <= a <= b
    ensures Half(a) <= Half(b)
  {
    HalfValues(a);
    HalfValues(b);
  }

  /** Where a paced history stands in time after `issued` attempts of the current outage. */
  predicate Paced(st: State, issued: nat, clock: nat)
  {
    InOutage(st) ==>
      && st.detachedAt.Some?
      && st.detachedAt.value + LeastWait(issued) <= clock
      && (issued > 0 ==> st.detachedAt.value + LeastWait(issued) < st.phase.deadline)
      && Min(issued + 1, U32_MAX) <= st.nextAttempt
      && (st.phase.Reconnecting? ==>
            && Min(issued + 2, U32_MAX) <= st.nextAttempt
            && st.detachedAt.value + LeastWait(issued + 1) <= st.phase.nextRetry)
  }

  lemma SchedulePaces(st: State, issued: nat, clock: nat, call: Call)
    requires Inv(st) && Anchored(st) && call.ScheduleCall? && clock <= call.now
    requires call.delay.Some? && Half(st.nextAttempt) <= call.delay.value
    requires Paced(st, issued, clock) && (!InOutage(st) ==> issued == 0)
    ensures Paced(Step(st, call), issued, call.now)
  {
    HalfIsMonotone(Min(issued + 1, U32_MAX), if InOutage(st) then st.nextAttempt else Min(issued + 1, U32_MAX));
    if issued + 1 > U32_MAX {
      HalfValues(issued + 1);
      HalfValues(U32_MAX);
    }
    HalfIsMonotone(1, st.nextAttempt);
  }

  lemma TakingPaces(st: State, issued: nat, clock: nat, call: Call)
    requires Inv(st) && Paced(st, issued, clock) && call.TakeDueCall? && clock <= call.now
    ensures Paced(Step(st, call), if Issued(st, call).Some? then issued + 1 else issued, call.now)
  {
  }

  lemma OtherCallsPace(st: State, issued: nat, clock: nat, now: nat, call: Call)
    requires Inv(st) && Paced(st, issued, clock) && clock <= now
    requires !call.RetryNowCall? && !call.ScheduleCall? && !call.TakeDueCall?
    ensures Paced(Step(st, call), issued, now) && Issued(st, call).None?
  {
  }

  lemma StepPaces(st: State, issued: nat, clock: nat, call: Call)
    requires Inv(st) && Anchored(st) && Paced(st, issued, clock) && !call.RetryNowCall?
    requires !InOutage(st) ==> issued == 0
    requires Time(call).Some? ==> clock <= Time(call).value
    requires call.ScheduleCall? ==> call.delay.Some? && Half(st.nextAttempt) <= call.delay.value
    ensures Paced(Step(st, call), if Issued(st, call).Some? then issued + 1 else issued,
                  if Time(call).Some? then Time(call).value else clock)
  {
    if call.ScheduleCall? {
      SchedulePaces(st, issued, clock, call);
    } else if call.TakeDueCall? {
      TakingPaces(st, issued, clock, call);
    } else {
      OtherCallsPace(st, issued, clock, if Time(call).Some? then Time(call).value else clock, call);
    }
  }

  lemma {:induction false} HistoryIsPaced(init: State, calls: seq<Call>)
    requires Inv(init) && Anchored(init) && !InOutage(init)
    requires PacedHistory(init, calls)
    ensures Paced(After(init, calls), AttemptsInOutage(init, calls), Clock(calls))
    ensures Anchored(After(init, calls))
  {
    if calls != [] {
      var before := After(init, Front(calls));
      HistoryKeepsInv(init, Front(calls));
      HistoryIsPaced(init, Front(calls));
      AnsweredStepStaysAnchored(before, Last(calls));
      StepPaces(before, AttemptsInOutage(init, Front(calls)), Clock(Front(calls)), Last(calls));
    }
  }

  lemma TooManyAttempts(n: nat)
    requires n >= 2884
    ensures LeastWait(n) >= MAX_RECONNECT_WINDOW
  {
    LeastWaitClosedForm(n);
    assert (n - 5) * (2500 * MS) >= 2879 * (2500 * MS);
  }

  lemma PacedOutageIsBounded(st: State, issued: nat, clock: nat)
    requires Inv(st) && Anchored(st) && Paced(st, issued, clock) && InOutage(st) && issued > 0
    ensures LeastWait(issued) < st.credential.value.window && issued <= 2883
  {
    if issued >= 2884 { TooManyAttempts(issued); }
  }

  /** With a monotone clock, a jitter source that keeps its contract and no `retry_now`, the
      attempts of one outage fit, one least delay after the other, into the granted window;
      even the longest window admits at most 2883 of them. */
  lemma AttemptsAreBounded(generation: nat, identity: Identity, nonce: string, calls: seq<Call>)
    requires PacedHistory(New(generation, identity, nonce), calls)
    ensures var init := New(generation, identity, nonce);
      var st := After(init, calls);
      && (InOutage(st) && AttemptsInOutage(init, calls) > 0 ==>
            st.credential.Some? && LeastWait(AttemptsInOutage(init, calls)) < st.credential.value.window)
      && AttemptsInOutage(init, calls) <= 2883
  {
    var init := New(generation, identity, nonce);
    HistoryKeepsInv(init, calls);
    HistoryIsPaced(init, calls);
    if InOutage(After(init, calls)) && AttemptsInOutage(init, calls) > 0 {
      PacedOutageIsBounded(After(init, calls), AttemptsInOutage(init, calls), Clock(calls));
    }
  }

  // ----- The bound is reached

  lemma Extend(init: State, calls: seq<Call>, call: Call)
    requires PacedHistory(init, calls) && !call.RetryNowCall?
    requires Time(call).Some? ==> Clock(calls) <= Time(call).value
    requires call.ScheduleCall? ==> call.delay == Some(Half(After(init, calls).nextAttempt))
    ensures PacedHistory(init, calls + [call])
    ensures After(init, calls + [call]) == Step(After(init, calls), call)
    ensures Time(call).Some? ==> Clock(calls + [call]) == Time(call).value
    ensures InOutage(After(init, calls + [call])) ==>
      AttemptsInOutage(init, calls + [call])
      == AttemptsInOutage(init, calls) + if Issued(After(init, calls), call).Some? then 1 else 0
  {
    assert Front(calls + [call]) == calls && Last(calls + [call]) == call;
  }

  /** The state after `n` attempts made as early as the jitter allows, in the longest window. */
  predicate Busiest(st: State, n: nat)
  {
    && st.nextAttempt == n + 1
    && st.credential.Some? && st.credential.value.window == MAX_RECONNECT_WINDOW
    && st.credential.value.identity == st.identity
    && if n == 0 then st.detachedAt == None && st.detachDeadline == None
       else st.phase.Resuming? && st.detachedAt == Some(0) && st.detachDeadline == Some(MAX_RECONNECT_WINDOW)
  }

  lemma LeastWaitFits(n: nat)
    requires n <= 2883
    ensures LeastWait(n) < MAX_RECONNECT_WINDOW
  {
    if n >= 5 {
      LeastWaitClosedForm(n);
      assert (n - 5) * (2500 * MS) <= 2878 * (2500 * MS);
    } else {
      LeastWaitClosedForm(5);
      assert LeastWait(5) == LeastWait(4) + Half(5);
      assert LeastWait(4) == LeastWait(3) + Half(4);
      assert LeastWait(3) == LeastWait(2) + Half(3);
      assert LeastWait(2) == LeastWait(1) + Half(2);
      assert LeastWait(1) == LeastWait(0) + Half(1);
    }
  }

  function ScheduleNext(n: nat): Call
    requires LeastWait(n) < MAX_RECONNECT_WINDOW
  {
    ScheduleCall("", LeastWait(n), Some(Half(n + 1)))
  }

  function TakeNext(st: State, n: nat): Call
    requires LeastWait(n + 1) < MAX_RECONNECT_WINDOW
  {
    TakeDueCall(LeastWait(n + 1), st.generation, st.identity)
  }

  lemma BusiestSchedules(st: State, n: nat)
    requires Busiest(st, n) && n < 2883
    requires LeastWait(n) < MAX_RECONNECT_WINDOW && LeastWait(n + 1) < MAX_RECONNECT_WINDOW
    ensures var waiting := Step(st, ScheduleNext(n));
      && waiting == st.(detachedAt := Some(0), detachDeadline := Some(MAX_RECONNECT_WINDOW), nextAttempt := n + 2,
                        phase := Reconnecting(n + 1, LeastWait(n + 1), MAX_RECONNECT_WINDOW, ""))
      && Issued(st, ScheduleNext(n)).None?
  {
  }

  lemma BusiestTakes(st: State, n: nat)
    requires Busiest(st, n) && n < 2883
    requires LeastWait(n) < MAX_RECONNECT_WINDOW && LeastWait(n + 1) < MAX_RECONNECT_WINDOW
    ensures var waiting := Step(st, ScheduleNext(n));
      Busiest(Step(waiting, TakeNext(st, n)), n + 1) && Issued(waiting, TakeNext(st, n)).Some?
  {
    BusiestSchedules(st, n);
  }

  /** One more attempt, as early as the jitter allows. */
  lemma BusiestRound(init: State, calls: seq<Call>, n: nat) returns (longer: seq<Call>)
    requires PacedHistory(init, calls) && Busiest(After(init, calls), n) && n < 2883
    requires Clock(calls) == LeastWait(n) && AttemptsInOutage(init, calls) == n
    ensures PacedHistory(init, longer) && Busiest(After(init, longer), n + 1)
    ensures Clock(longer) == LeastWait(n + 1) && AttemptsInOutage(init, longer) == n + 1
  {
    var st := After(init, calls);
    LeastWaitFits(n);
    LeastWaitFits(n + 1);
    BusiestSchedules(st, n);
    BusiestTakes(st, n);
    Extend(init, calls, ScheduleNext(n));
    Extend(init, calls + [ScheduleNext(n)], TakeNext(st, n));
    longer := calls + [ScheduleNext(n)] + [TakeNext(st, n)];
  }

  lemma {:induction false} BusiestHistory(generation: nat, identity: Identity, nonce: string, n: nat)
    returns (calls: seq<Call>)
    requires n <= 2883
    ensures var init := New(generation, identity, nonce);
      && PacedHistory(init, calls) && Busiest(After(init, calls), n)
      && Clock(calls) == LeastWait(n) && AttemptsInOutage(init, calls) == n
  {
    var init := New(generation, identity, nonce);
    if n == 0 {
      var accept := AcceptInitialCall(Some("g"), Some(MAX_RECONNECT_WINDOW), false, "");
      Extend(init, [], accept);
      calls := [accept];
      assert [] + [accept] == calls;
    } else {
      var before := BusiestHistory(generation, identity, nonce, n - 1);
      calls := BusiestRound(init, before, n - 1);
    }
  }

  /** No smaller bound would do. */
  lemma BoundIsReached(generation: nat, identity: Identity, nonce: string) returns (calls: seq<Call>)
    ensures var init := New(generation, identity, nonce);
      PacedHistory(init, calls) && AttemptsInOutage(init, calls) == 2883
  {
    calls := BusiestHistory(generation, identity, nonce, 2883);
  }
}
