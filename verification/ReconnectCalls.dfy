/** When each call of the reconnect controller succeeds, in every state, and what it then leaves. */
module ReconnectCalls {
  import opened Wrappers
  import opened Reconnect
  import opened ReconnectRuns

  /** No call renames the controller. */
  predicate SameController(after: State, before: State)
  {
    after.generation == before.generation && after.identity == before.identity
  }

  /** Connected, with no outage in sight and the next attempt the first. */
  predicate Fresh(st: State)
  {
    st.phase == Connected && st.detachedAt == None && st.detachDeadline == None && st.nextAttempt == 1
  }

  /** Every answer of `accept_initial`: a grant is taken if it is nonempty and its window is between
      nothing and two hours; a zero window, or neither grant nor window, turns reconnecting off;
      anything else, and any resumed answer, is refused and changes nothing. */
  lemma InitialOutcome(st: State, grant: Option<string>, window: Option<Duration>, resumed: bool, sid: string)
    ensures var (after, r) := AcceptInitial(st, grant, window, resumed, sid);
      && (r == Ok(Enabled) <==>
            !resumed && grant.Some? && window.Some? && grant.value != "" && 0 < window.value <= 7_200_000 * MS)
      && (r == Ok(Disabled) <==> !resumed && (window == Some(0) || (grant.None? && window.None?)))
      && (r == Err(InvalidWindow) <==>
            !resumed && grant.Some? && window.Some? && window.value > 0
            && (grant.value == "" || window.value > 7_200_000 * MS))
      && (r == Err(UnexpectedAuthentication) <==>
            resumed || (grant.None? && window.Some? && window.value > 0) || (grant.Some? && window.None?))
      && (r.Err? ==> after == st)
      && (r.Ok? ==> Fresh(after) && SameController(after, st) && after.holderNonce == st.holderNonce)
      && (r == Ok(Enabled) ==>
            after.credential == Some(Credential(grant.value, st.holderNonce, window.value, st.identity, sid)))
      && (r == Ok(Disabled) ==> after.credential == None)
  {
  }

  /** `accept_resume` succeeds exactly for a resumed answer with an acceptable successor grant, while
      a credential is held and the deadline has not passed. */
  lemma ResumeOutcome(st: State, grant: Option<string>, window: Option<Duration>, resumed: bool, sid: string,
                      now: Duration)
    ensures var (after, r) := AcceptResume(st, grant, window, resumed, sid, now);
      && (r.Ok? <==>
            resumed && grant.Some? && window.Some? && grant.value != "" && 0 < window.value <= 7_200_000 * MS
            && st.credential.Some? && !PastDeadline(st, now))
      && (r == Err(Expired) <==> PastDeadline(st, now))
      && (r == Err(MissingSuccessorGrant) <==> !PastDeadline(st, now) && resumed && !Acceptable(grant, window))
      && (r == Err(Expired) ==> after == Forget(st, Terminal))
      && (r.Err? && r.error != Expired ==> after == st)
      && (r.Ok? ==>
            && Fresh(after) && SameController(after, st) && after.holderNonce == st.holderNonce
            && after.credential == Some(Credential(
                 grant.value, st.credential.value.holderNonce, window.value, st.credential.value.identity, sid)))
  {
  }

  /** `accept_refresh` succeeds exactly for a first-hand answer with an acceptable grant, while
      connected and holding a credential; it leaves the loss anchor alone. */
  lemma RefreshOutcome(st: State, grant: Option<string>, window: Option<Duration>, resumed: bool, sid: string)
    ensures var (after, r) := AcceptRefresh(st, grant, window, resumed, sid);
      && (r.Ok? <==>
            !resumed && st.phase == Connected && st.credential.Some?
            && grant.Some? && window.Some? && grant.value != "" && 0 < window.value <= 7_200_000 * MS)
      && (r == Err(InvalidWindow) <==>
            !resumed && st.phase == Connected && grant.Some? && window.Some? && window.value > 7_200_000 * MS)
      && (r.Err? ==> after == st)
      && (r.Ok? ==>
            && SameController(after, st) && after.holderNonce == st.holderNonce && after.phase == Connected
            && after.detachedAt == st.detachedAt && after.detachDeadline == None && after.nextAttempt == 1
            && after.credential == Some(Credential(
                 grant.value, st.credential.value.holderNonce, window.value, st.credential.value.identity, sid)))
  {
  }

  /** The deadline of the outage that a `schedule` at `now` belongs to. */
  function DeadlineFrom(st: State, now: Duration): nat
    requires st.credential.Some?
  {
    if st.detachDeadline.Some? then st.detachDeadline.value else now + st.credential.value.window
  }

  /** `schedule` succeeds exactly if a credential is held, the jitter source answers and the retry
      comes before a deadline that can be represented. */
  lemma ScheduleOutcome(st: State, lastError: string, now: Duration, delay: Option<Duration>)
    ensures var (after, r) := Schedule(st, lastError, now, delay);
      && (r.Ok? <==> st.credential.Some? && delay.Some? && !TooLate(st, now, delay))
      && (r == Err(RandomnessUnavailable) <==> st.credential.Some? && delay.None? && !TooLate(st, now, delay))
      && (r == Err(Expired) <==> st.credential.None? || TooLate(st, now, delay))
      && (r == Err(Expired) ==> after.phase == Terminal && after.credential == None)
      && (!r.Err? || r.error != Expired ==>
            && SameController(after, st) && after.credential == st.credential && after.holderNonce == st.holderNonce
            && after.detachedAt == Some(if st.detachedAt.Some? then st.detachedAt.value else now)
            && after.detachDeadline.Some? && after.detachDeadline.value == DeadlineFrom(st, now))
      && (r == Err(RandomnessUnavailable) ==> after.phase == st.phase && after.nextAttempt == st.nextAttempt)
      && (r.Ok? ==>
            && after.phase.Reconnecting? && after.phase.attempt == st.nextAttempt && after.phase.lastError == lastError
            && after.phase.deadline == DeadlineFrom(st, now) && after.nextAttempt == Min(st.nextAttempt + 1, U32_MAX)
            && after.phase.nextRetry == Min(now + delay.value, MAX_DURATION) < after.phase.deadline)
  {
  }

  /** `retry_now` succeeds exactly while a retry is scheduled and its deadline has not passed, and
      moves nothing but the moment of the retry. */
  lemma RetryNowOutcome(st: State, now: Duration)
    ensures var (after, r) := RetryNow(st, now);
      && (r.Ok? <==> st.phase.Reconnecting? && now < st.phase.deadline)
      && (r.Err? ==> r.error == Expired && after == st)
      && (r.Ok? ==>
            && after.phase.Reconnecting? && after.phase.nextRetry == now && after.phase.attempt == st.phase.attempt
            && after.phase.deadline == st.phase.deadline && after.phase.lastError == st.phase.lastError
            && after.(phase := st.phase) == st)
  {
  }

  /** After it, the attempt is due at once. */
  lemma RetryNowIsDue(st: State, now: Duration)
    requires Inv(st) && RetryNow(st, now).1.Ok?
    ensures Issued(RetryNow(st, now).0, TakeDueCall(now, st.generation, st.identity)).Some?
  {
    TakeDueOutcome(RetryNow(st, now).0, now, st.generation, st.identity);
  }

  /** Without a scheduled retry `take_due` does nothing, whatever identity it is given. */
  lemma NothingIsDue(st: State, now: Duration, generation: nat, identity: Identity)
    requires !st.phase.Reconnecting?
    ensures TakeDue(st, now, generation, identity) == (st, Ok(None))
  {
  }

  /** An issued attempt leaves the outage as it was, resuming. */
  lemma IssuingResumes(st: State, now: Duration, generation: nat, identity: Identity)
    requires Issued(st, TakeDueCall(now, generation, identity)).Some?
    ensures var after := TakeDue(st, now, generation, identity).0;
      && st.phase.Reconnecting? && after.phase.Resuming? && after.phase.attempt == st.phase.attempt
      && after.phase.deadline == st.phase.deadline && after.phase.lastError == st.phase.lastError
      && after.(phase := st.phase) == st
  {
  }

  /** `expire` ends an outage exactly once its deadline has come. */
  lemma ExpireOutcome(st: State, now: Duration)
    ensures var (after, expired) := Expire(st, now);
      && (expired <==> PastDeadline(st, now))
      && after == (if PastDeadline(st, now) then Step(st, TerminalCall) else st)
  {
  }

  /** A cancel and a terminal failure forget everything but who the controller is. */
  lemma ForgettingOutcome(st: State)
    ensures Step(st, ManualCancelCall).phase == Cancelled && Step(st, TerminalCall).phase == Terminal
    ensures forall call :: call == ManualCancelCall || call == TerminalCall ==>
      var after := Step(st, call);
      && SameController(after, st) && after.credential == None && after.detachedAt == None
      && after.detachDeadline == None && after.holderNonce == ""
  {
  }

  /** An outage that is resumed in time leaves nothing behind but the successor grant: after
      `schedule`, the due attempt and an accepted resume, the controller is as before the loss. */
  lemma ResumedOutageIsUndone(st: State, lastError: string, lost: Duration, delay: Duration, due: Duration,
                              grant: string, window: Duration, sid: string, answered: Duration)
    requires Inv(st) && Fresh(st) && st.credential.Some? && !TooLate(st, lost, Some(delay))
    requires Min(lost + delay, MAX_DURATION) <= due < lost + st.credential.value.window
    requires answered < lost + st.credential.value.window && Acceptable(Some(grant), Some(window))
    ensures var waiting := Step(st, ScheduleCall(lastError, lost, Some(delay)));
      var take := TakeDueCall(due, st.generation, st.identity);
      && Issued(waiting, take).Some?
      && Issued(waiting, take).value.grant == st.credential.value.grant
      && Issued(waiting, take).value.attempt == 1
      && Step(Step(waiting, take), AcceptResumeCall(Some(grant), Some(window), true, sid, answered))
         == st.(credential := Some(Credential(grant, st.holderNonce, window, st.identity, sid)))
  {
    ScheduleOutcome(st, lastError, lost, Some(delay));
    var waiting := Step(st, ScheduleCall(lastError, lost, Some(delay)));
    StepKeepsInv(st, ScheduleCall(lastError, lost, Some(delay)));
    TakeDueOutcome(waiting, due, st.generation, st.identity);
    IssuingResumes(waiting, due, st.generation, st.identity);
  }
}
