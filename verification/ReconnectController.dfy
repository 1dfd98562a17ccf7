/**
 The reconnect controller as the object the client holds.  Each method updates the fields in
 place and appends itself to the ghost history `calls`; `Valid` says that the fields are the
 state that history leads to from a fresh controller, so every theorem about histories holds of
 every controller; `IsInvariant`, `StaysClosed` and `AttemptCarries` state the main ones.
 */
module Controller {
  import opened Wrappers
  import opened Reconnect
  import Runs = ReconnectRuns

  class ReconnectController {
    const generation: nat
    const identity: Identity
    var holderNonce: string
    var credential: Option<Credential>
    var detachedAt: Option<Duration>
    var detachDeadline: Option<Duration>
    var phase: Phase
    var nextAttempt: nat

    ghost const nonce: string
    ghost var calls: seq<Call>

    ghost function View(): State
      reads this
    {
      State(generation, identity, holderNonce, credential, detachedAt, detachDeadline, phase, nextAttempt)
    }

    ghost function Initial(): State { New(generation, identity, nonce) }

    ghost predicate Valid()
      reads this
    {
      View() == After(Initial(), calls)
    }

    /** The invariant holds of every controller between any two calls. */
    lemma IsInvariant()
      requires Valid()
      ensures Runs.Inv(View())
    {
      Runs.EveryHistory(generation, identity, nonce, calls);
    }

    /** A cancelled or failed controller issues nothing, whatever is called, until it is reopened. */
    lemma StaysClosed(more: seq<Call>, call: Call)
      requires Valid() && (phase.Cancelled? || phase.Terminal?)
      requires forall i :: 0 <= i < |more| ==> !Runs.Reopens(more[i])
      ensures Issued(After(View(), more), call).None?
    {
      IsInvariant();
      Runs.ClosedUntilReopened(View(), more, call);
    }

    /** What the next call of `take_due` may hand out. */
    lemma AttemptCarries(call: Call)
      requires Valid() && Issued(View(), call).Some?
      ensures var a := Issued(View(), call).value;
        && credential.Some? && a.generation == generation && a.identity == identity
        && Runs.LastAccepted(Initial(), calls) == Some(Runs.Handover(a.grant, credential.value.window, a.previousSid))
        && a.holderNonce == (if Runs.SecretDropped(Initial(), calls) then "" else nonce)
        && (!Runs.StaleAnchored(Initial(), calls) ==> a.gap < credential.value.window)
    {
      Runs.AttemptsAreTimely(generation, identity, nonce, calls, call);
    }

    twostate predicate Did(call: Call)
      reads this
    {
      calls == old(calls) + [call] && View() == Step(old(View()), call) && Valid()
    }

    twostate lemma Record(call: Call)
      requires old(Valid()) && calls == old(calls) + [call] && View() == Step(old(View()), call)
      ensures Did(call)
    {
      assert calls[..|calls| - 1] == old(calls);
    }

    constructor (generation: nat, identity: Identity, holderNonce: string)
      ensures Valid() && calls == [] && Initial() == New(generation, identity, holderNonce)
    {
      this.generation, this.identity, this.holderNonce := generation, identity, holderNonce;
      credential, detachedAt, detachDeadline := None, None, None;
      phase, nextAttempt := Connected, 1;
      nonce, calls := holderNonce, [];
    }

    method AcceptInitial(grant: Option<string>, window: Option<Duration>, resumed: bool, sid: string)
      returns (r: Result<Update, Error>)
      requires Valid()
      modifies this
      ensures Did(AcceptInitialCall(grant, window, resumed, sid))
      ensures r == Reconnect.AcceptInitial(old(View()), grant, window, resumed, sid).1
    {
      calls := calls + [AcceptInitialCall(grant, window, resumed, sid)];
      if resumed {
        Record(AcceptInitialCall(grant, window, resumed, sid));
        return Err(UnexpectedAuthentication);
      }
      var update;
      match (grant, window) {
        case (Some(g), Some(w)) =>
          if g != "" && w != 0 && w <= MAX_RECONNECT_WINDOW {
            credential := Some(Credential(g, holderNonce, w, identity, sid));
            update := Enabled;
          } else if w == 0 {
            credential, detachDeadline := None, None;
            update := Disabled;
          } else {
            Record(AcceptInitialCall(grant, window, resumed, sid));
            return Err(InvalidWindow);
          }
        case (None, None) =>
          credential, detachDeadline := None, None;
          update := Disabled;
        case (None, Some(w)) =>
          if w != 0 {
            Record(AcceptInitialCall(grant, window, resumed, sid));
            return Err(UnexpectedAuthentication);
          }
          credential, detachDeadline := None, None;
          update := Disabled;
        case (Some(_), None) =>
          Record(AcceptInitialCall(grant, window, resumed, sid));
          return Err(UnexpectedAuthentication);
      }
      detachDeadline, detachedAt := None, None;
      phase := Connected;
      nextAttempt := 1;
      Record(AcceptInitialCall(grant, window, resumed, sid));
      return Ok(update);
    }

    method AcceptResume(grant: Option<string>, window: Option<Duration>, resumed: bool, sid: string, now: Duration)
      returns (r: Result<(), Error>)
      requires Valid()
      modifies this
      ensures Did(AcceptResumeCall(grant, window, resumed, sid, now))
      ensures r == Reconnect.AcceptResume(old(View()), grant, window, resumed, sid, now).1
    {
      var expired := PassDeadline(now);
      calls := calls + [AcceptResumeCall(grant, window, resumed, sid, now)];
      if expired {
        r := Err(Expired);
      } else if !resumed {
        r := Err(UnexpectedAuthentication);
      } else if grant.None? || window.None? || grant.value == "" || window.value == 0
        || window.value > MAX_RECONNECT_WINDOW {
        r := Err(MissingSuccessorGrant);
      } else if credential.None? {
        r := Err(UnexpectedAuthentication);
      } else {
        credential := Some(credential.value.(grant := grant.value, previousSid := sid, window := window.value));
        detachDeadline, detachedAt := None, None;
        phase := Connected;
        nextAttempt := 1;
        r := Ok(());
      }
      Record(AcceptResumeCall(grant, window, resumed, sid, now));
    }

    method AcceptRefresh(grant: Option<string>, window: Option<Duration>, resumed: bool, sid: string)
      returns (r: Result<(), Error>)
      requires Valid()
      modifies this
      ensures Did(AcceptRefreshCall(grant, window, resumed, sid))
      ensures r == Reconnect.AcceptRefresh(old(View()), grant, window, resumed, sid).1
    {
      calls := calls + [AcceptRefreshCall(grant, window, resumed, sid)];
      if resumed || phase != Connected {
        r := Err(UnexpectedAuthentication);
      } else if grant.None? {
        r := Err(MissingSuccessorGrant);
      } else if window.Some? && window.value > MAX_RECONNECT_WINDOW {
        r := Err(InvalidWindow);
      } else if window.None? || window.value == 0 || grant.value == "" {
        r := Err(MissingSuccessorGrant);
      } else if credential.None? {
        r := Err(UnexpectedAuthentication);
      } else {
        credential := Some(credential.value.(grant := grant.value, previousSid := sid, window := window.value));
        detachDeadline := None;
        nextAttempt := 1;
        r := Ok(());
      }
      Record(AcceptRefreshCall(grant, window, resumed, sid));
    }

    method Schedule(lastError: string, now: Duration, delay: Option<Duration>) returns (r: Result<(), Error>)
      requires Valid()
      modifies this
      ensures Did(ScheduleCall(lastError, now, delay))
      ensures r == Reconnect.Schedule(old(View()), lastError, now, delay).1
    {
      calls := calls + [ScheduleCall(lastError, now, delay)];
      r := Anchor(lastError, now, delay);
      Record(ScheduleCall(lastError, now, delay));
    }

    method Anchor(lastError: string, now: Duration, delay: Option<Duration>) returns (r: Result<(), Error>)
      modifies this
      ensures View() == Reconnect.Schedule(old(View()), lastError, now, delay).0 && calls == old(calls)
      ensures r == Reconnect.Schedule(old(View()), lastError, now, delay).1
    {
      if credential.None? {
        phase := Terminal;
        return Err(Expired);
      }
      if detachedAt.None? { detachedAt := Some(now); }
      if detachDeadline.None? {
        if now + credential.value.window > MAX_DURATION {
          Drop(Terminal);
          return Err(Expired);
        }
        detachDeadline := Some(now + credential.value.window);
      }
      var deadline := detachDeadline.value;
      if now >= deadline {
        Drop(Terminal);
        return Err(Expired);
      }
      if delay.None? { return Err(RandomnessUnavailable); }
      var nextRetry := Min(now + delay.value, MAX_DURATION);
      if nextRetry >= deadline {
        Drop(Terminal);
        return Err(Expired);
      }
      phase := Reconnecting(nextAttempt, nextRetry, deadline, lastError);
      nextAttempt := Min(nextAttempt + 1, U32_MAX);
      return Ok(());
    }

    method RetryNow(now: Duration) returns (r: Result<(), Error>)
      requires Valid()
      modifies this
      ensures Did(RetryNowCall(now))
      ensures r == Reconnect.RetryNow(old(View()), now).1
    {
      calls := calls + [RetryNowCall(now)];
      if phase.Reconnecting? && now < phase.deadline {
        phase := phase.(nextRetry := now);
        r := Ok(());
      } else {
        r := Err(Expired);
      }
      Record(RetryNowCall(now));
    }

    method TakeDue(now: Duration, generation: nat, identity: Identity) returns (r: Result<Option<Attempt>, Error>)
      requires Valid()
      modifies this
      ensures Did(TakeDueCall(now, generation, identity))
      ensures r == Reconnect.TakeDue(old(View()), now, generation, identity).1
    {
      calls := calls + [TakeDueCall(now, generation, identity)];
      if !phase.Reconnecting? {
        r := Ok(None);
      } else if generation != this.generation || identity != this.identity {
        Drop(Terminal);
        r := Err(GenerationMismatch);
      } else if now < phase.nextRetry {
        r := Ok(None);
      } else if now >= phase.deadline || detachedAt.None? {
        Drop(Terminal);
        r := Err(Expired);
      } else if credential.None? {
        r := Err(Expired);
      } else if credential.value.identity != this.identity {
        Drop(Terminal);
        r := Err(GenerationMismatch);
      } else {
        var c := credential.value;
        var gap := if now >= detachedAt.value then now - detachedAt.value else 0;
        r := Ok(Some(Attempt(
          c.holderNonce, c.grant, c.previousSid, this.generation, this.identity, phase.attempt, gap)));
        phase := Resuming(phase.attempt, phase.deadline, phase.lastError);
      }
      Record(TakeDueCall(now, generation, identity));
    }

    /** Time left for the resume in flight: `Ok` exactly while one is in flight before its deadline. */
    method ResumeBudget(now: Duration) returns (r: Result<Duration, Error>)
      ensures r.Ok? <==> phase.Resuming? && now < phase.deadline
      ensures r.Ok? ==> r.value > 0 && now + r.value == phase.deadline
      ensures r.Err? ==> r.error == Expired
    {
      if !phase.Resuming? { return Err(Expired); }
      var remaining := if phase.deadline >= now then phase.deadline - now else 0;
      r := if remaining == 0 then Err(Expired) else Ok(remaining);
    }

    method Expire(now: Duration) returns (expired: bool)
      requires Valid()
      modifies this
      ensures Did(ExpireCall(now))
      ensures expired == Reconnect.Expire(old(View()), now).1
    {
      expired := PassDeadline(now);
      calls := calls + [ExpireCall(now)];
      Record(ExpireCall(now));
    }

    method PassDeadline(now: Duration) returns (expired: bool)
      modifies this
      ensures View() == Reconnect.Expire(old(View()), now).0 && calls == old(calls)
      ensures expired == Reconnect.Expire(old(View()), now).1
    {
      if !phase.Reconnecting? && !phase.Resuming? { return false; }
      if now < phase.deadline { return false; }
      Drop(Terminal);
      return true;
    }

    method ManualCancel()
      requires Valid()
      modifies this
      ensures Did(ManualCancelCall)
    {
      Drop(Cancelled);
      calls := calls + [ManualCancelCall];
      Record(ManualCancelCall);
    }

    method MakeTerminal()
      requires Valid()
      modifies this
      ensures Did(TerminalCall)
    {
      Drop(Terminal);
      calls := calls + [TerminalCall];
      Record(TerminalCall);
    }

    method Drop(last: Phase)
      modifies this
      ensures View() == Forget(old(View()), last) && calls == old(calls)
    {
      credential, detachedAt, detachDeadline := None, None, None;
      holderNonce := "";
      phase := last;
    }
  }
}
