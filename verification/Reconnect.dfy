/**
 The reconnect controller: a five-phase state machine that holds a resume credential,
 anchors a deadline at the moment a connection is lost, and paces resume attempts with a
 jittered exponential backoff.

 The functions say what one call does to the controller's state; `ReconnectController` is the
 object itself, whose methods update its fields in place.
 */
module Reconnect {
  import opened Wrappers

  /** Durations are nanoseconds, up to the largest value a `std::time::Duration` can hold. */
  const MS: nat := 1_000_000
  const MAX_DURATION: nat := 0xFFFF_FFFF_FFFF_FFFF * 1000 * MS + 999_999_999
  const FIRST_BACKOFF: nat := 250 * MS
  const MAX_BACKOFF: nat := 5_000 * MS
  const MAX_RECONNECT_WINDOW: nat := 7_200_000 * MS
  const U32_MAX: nat := 0xFFFF_FFFF
  const U64_MAX: nat := 0xFFFF_FFFF_FFFF_FFFF

  type Duration = d: nat | d <= MAX_DURATION

  datatype Identity = Identity(endpoint: string, security: string, topology: string)

  datatype Credential = Credential(
    grant: string, holderNonce: string, window: Duration, identity: Identity, previousSid: string)

  datatype Attempt = Attempt(
    holderNonce: string, grant: string, previousSid: string, generation: nat, identity: Identity,
    attempt: nat, gap: Duration)

  datatype Phase =
    | Connected
    | Reconnecting(attempt: nat, nextRetry: Duration, deadline: Duration, lastError: string)
    | Resuming(attempt: nat, deadline: Duration, lastError: string)
    | Cancelled
    | Terminal

  datatype Update = Enabled | Disabled

  datatype Error =
    | UnexpectedAuthentication
    | MissingSuccessorGrant
    | InvalidWindow
    | Expired
    | RandomnessUnavailable
    | GenerationMismatch

  datatype State = State(
    generation: nat, identity: Identity, holderNonce: string, credential: Option<Credential>,
    detachedAt: Option<Duration>, detachDeadline: Option<Duration>, phase: Phase, nextAttempt: nat)

  function New(generation: nat, identity: Identity, holderNonce: string): State
  {
    State(generation, identity, holderNonce, None, None, None, Connected, 1)
  }

  // ----- Backoff and jitter

  function Min(a: nat, b: nat): nat { if a <= b then a else b }

  function Pow2(n: nat): (p: nat)
    ensures p >= 1
  {
    if n == 0 then 1 else 2 * Pow2(n - 1)
  }

  /** `backoff_base`: the shift is checked and the multiplication is checked. */
  function BackoffBase(attempt: nat): (base: Duration)
    ensures base <= MAX_BACKOFF
  {
    var exponent := Min(if attempt == 0 then 0 else attempt - 1, 63);
    var factor := if exponent < 32 then Pow2(exponent) else U32_MAX;
    var product := FIRST_BACKOFF * factor;
    Min(if product <= MAX_DURATION then product else MAX_BACKOFF, MAX_BACKOFF)
  }

  lemma {:induction false} Pow2AtLeast(n: nat)
    requires n >= 5
    ensures Pow2(n) >= 32
  {
    if n == 5 {
      assert Pow2(5) == 2 * Pow2(4) == 4 * Pow2(3) == 8 * Pow2(2);
    } else {
      Pow2AtLeast(n - 1);
    }
  }

  /** The backoff doubles from 250 ms and is capped at 5 s, for every attempt number: the
      saturated shift beyond 31 and the clamped exponent beyond 63 do not show. */
  lemma BackoffIsCappedDoubling(attempt: nat)
    requires attempt >= 1
    ensures BackoffBase(attempt) == Min(FIRST_BACKOFF * Pow2(attempt - 1), MAX_BACKOFF)
  {
    if attempt >= 6 {
      Pow2AtLeast(attempt - 1);
      assert FIRST_BACKOFF * Pow2(attempt - 1) >= FIRST_BACKOFF * 32;
      if attempt <= 32 { Pow2AtLeast(Min(attempt - 1, 63)); }
    }
  }

  /** The shortest delay a bounded jitter may answer for an attempt. */
  function Half(attempt: nat): nat { BackoffBase(attempt) / 2 }

  /** The first six delays; every later one is the sixth. */
  lemma HalfValues(attempt: nat)
    requires attempt >= 1
    ensures Half(attempt) ==
      if attempt == 1 then 125 * MS else if attempt == 2 then 250 * MS else if attempt == 3 then 500 * MS
      else if attempt == 4 then 1000 * MS else if attempt == 5 then 2000 * MS else 2500 * MS
  {
    BackoffIsCappedDoubling(attempt);
    if attempt >= 6 { Pow2AtLeast(attempt - 1); }
    else {
      assert Pow2(0) == 1;
      assert Pow2(1) == 2;
      assert Pow2(2) == 4;
      assert Pow2(3) == 8;
      assert Pow2(4) == 16;
    }
  }

  /** `SystemJitter::inclusive` on one 64-bit random number. */
  function SystemInclusive(minimum: Duration, maximum: Duration, random: nat): (delay: Option<nat>)
    requires random <= U64_MAX
  {
    var low, high := minimum / MS, maximum / MS;
    if low > U64_MAX || high > U64_MAX || high < low || high - low + 1 > U64_MAX then None
    else Some((low + random % (high - low + 1)) * MS)
  }

  ghost predicate WithinBounds(minimum: Duration, maximum: Duration, delay: Option<nat>)
  {
    delay.Some? && minimum <= delay.value <= maximum
  }

  /** What a caller must ask for: whole milliseconds below, and a width that 64 bits can count. */
  predicate Answerable(minimum: Duration, maximum: Duration)
  {
    && minimum <= maximum && minimum % MS == 0
    && maximum / MS <= U64_MAX && maximum / MS - minimum / MS < U64_MAX
  }

  /** The system jitter keeps within its bounds for every random number exactly if they are
      answerable. */
  lemma SystemJitterMeetsBoundsIff(minimum: Duration, maximum: Duration)
    ensures Answerable(minimum, maximum) <==>
      forall random: nat {:trigger SystemInclusive(minimum, maximum, random)} :: random <= U64_MAX ==>
        WithinBounds(minimum, maximum, SystemInclusive(minimum, maximum, random))
  {
    var low, high := minimum / MS, maximum / MS;
    if Answerable(minimum, maximum) {
      DivMonotone(minimum, maximum);
      forall random: nat | random <= U64_MAX
        ensures WithinBounds(minimum, maximum, SystemInclusive(minimum, maximum, random))
      {
        assert 0 <= random % (high - low + 1) <= high - low;
        assert low * MS <= (low + random % (high - low + 1)) * MS <= high * MS;
      }
    } else {
      assert high >= low ==> 0 % (high - low + 1) == 0;
      assert !WithinBounds(minimum, maximum, SystemInclusive(minimum, maximum, 0));
    }
  }

  /** Asked for a width of 2^64 milliseconds, it does not answer. */
  lemma SystemJitterCanRefuse()
    ensures U64_MAX * MS <= MAX_DURATION && SystemInclusive(0, U64_MAX * MS, 0) == None
  {
    assert U64_MAX * MS / MS == U64_MAX;
  }

  lemma SmallRemainder(n: nat, d: nat)
    requires n < d
    ensures n % d == n
  {
  }

  lemma Draws(minimum: Duration, maximum: Duration, low: nat, high: nat, ms: nat)
    requires low == minimum / MS && high == maximum / MS && low <= ms <= high <= U64_MAX && high - low < U64_MAX
    ensures SystemInclusive(minimum, maximum, ms - low) == Some(ms * MS)
  {
    SmallRemainder(ms - low, high - low + 1);
  }

  lemma WholeMilliseconds(minimum: nat, maximum: nat, ms: nat)
    requires minimum <= ms * MS <= maximum
    ensures minimum / MS <= ms <= maximum / MS
  {
  }

  /** Every whole millisecond between answerable bounds is drawn by some random number. */
  lemma SystemJitterReaches(minimum: Duration, maximum: Duration, ms: nat)
    requires Answerable(minimum, maximum) && minimum <= ms * MS <= maximum
    ensures exists random: nat {:trigger SystemInclusive(minimum, maximum, random)} ::
      random <= U64_MAX && SystemInclusive(minimum, maximum, random) == Some(ms * MS)
  {
    WholeMilliseconds(minimum, maximum, ms);
    Draws(minimum, maximum, minimum / MS, maximum / MS, ms);
  }

  /** Asked for at least one nanosecond, it may answer none. */
  lemma SystemJitterCanUndershoot()
    ensures SystemInclusive(1, MS, 0) == Some(0) && !WithinBounds(1, MS, SystemInclusive(1, MS, 0))
  {
    assert 1 / MS == 0 && MS / MS == 1;
  }

  lemma DivMonotone(a: nat, b: nat)
    requires a <= b
    ensures a / MS <= b / MS
  {
  }

  /** Hence it answers every question the controller asks it within bounds. */
  lemma SystemJitterServesBackoff(attempt: nat, random: nat)
    requires attempt >= 1 && random <= U64_MAX
    ensures var minimum, maximum := Half(attempt), BackoffBase(attempt);
      WithinBounds(minimum, maximum, SystemInclusive(minimum, maximum, random))
  {
    HalfValues(attempt);
    SystemJitterMeetsBoundsIff(Half(attempt), BackoffBase(attempt));
  }

  // ----- The calls

  /** A grant and window the controller may hold. */
  predicate Acceptable(grant: Option<string>, window: Option<Duration>)
  {
    grant.Some? && window.Some? && grant.value != "" && 0 < window.value <= MAX_RECONNECT_WINDOW
  }

  function Forget(st: State, phase: Phase): State
  {
    st.(credential := None, detachedAt := None, detachDeadline := None, holderNonce := "", phase := phase)
  }

  /** Back to `Connected` with nothing anchored. */
  function Attached(st: State, credential: Option<Credential>): State
  {
    st.(credential := credential, detachedAt := None, detachDeadline := None, phase := Connected, nextAttempt := 1)
  }

  function AcceptInitial(st: State, grant: Option<string>, window: Option<Duration>, resumed: bool, sid: string)
    : (State, Result<Update, Error>)
  {
    if resumed then (st, Err(UnexpectedAuthentication))
    else if Acceptable(grant, window) then
      (Attached(st, Some(Credential(grant.value, st.holderNonce, window.value, st.identity, sid))), Ok(Enabled))
    else if grant.Some? && window == Some(0) then (Attached(st, None), Ok(Disabled))
    else if grant.None? && (window.None? || window == Some(0)) then (Attached(st, None), Ok(Disabled))
    else if grant.Some? && window.Some? then (st, Err(InvalidWindow))
    else (st, Err(UnexpectedAuthentication))
  }

  function Rotate(c: Credential, grant: string, window: Duration, sid: string): Credential
  {
    c.(grant := grant, previousSid := sid, window := window)
  }

  function AcceptResume(st: State, grant: Option<string>, window: Option<Duration>, resumed: bool, sid: string,
                        now: Duration): (State, Result<(), Error>)
  {
    if Expire(st, now).1 then (Expire(st, now).0, Err(Expired))
    else if !resumed then (st, Err(UnexpectedAuthentication))
    else if !Acceptable(grant, window) then (st, Err(MissingSuccessorGrant))
    else if st.credential.None? then (st, Err(UnexpectedAuthentication))
    else (Attached(st, Some(Rotate(st.credential.value, grant.value, window.value, sid))), Ok(()))
  }

  function AcceptRefresh(st: State, grant: Option<string>, window: Option<Duration>, resumed: bool, sid: string)
    : (State, Result<(), Error>)
  {
    if resumed || !st.phase.Connected? then (st, Err(UnexpectedAuthentication))
    else if Acceptable(grant, window) then
      if st.credential.None? then (st, Err(UnexpectedAuthentication))
      else
        (st.(credential := Some(Rotate(st.credential.value, grant.value, window.value, sid)),
             detachDeadline := None, nextAttempt := 1), Ok(()))
    else if grant.Some? && window.Some? && window.value > MAX_RECONNECT_WINDOW then (st, Err(InvalidWindow))
    else (st, Err(MissingSuccessorGrant))
  }

  /** `delay` is what the jitter source answers when asked for the attempt's bounds. */
  function Schedule(st: State, lastError: string, now: Duration, delay: Option<Duration>): (State, Result<(), Error>)
  {
    if st.credential.None? then (st.(phase := Terminal), Err(Expired))
    else
      var detached := st.(detachedAt := if st.detachedAt.None? then Some(now) else st.detachedAt);
      var sum := now + st.credential.value.window;
      if st.detachDeadline.None? && sum > MAX_DURATION then (Forget(detached, Terminal), Err(Expired))
      else
        var deadline: Duration := if st.detachDeadline.Some? then st.detachDeadline.value else sum;
        var anchored := detached.(detachDeadline := Some(deadline));
        if now >= deadline then (Forget(anchored, Terminal), Err(Expired))
        else if delay.None? then (anchored, Err(RandomnessUnavailable))
        else
          var nextRetry := Min(now + delay.value, MAX_DURATION);
          if nextRetry >= deadline then (Forget(anchored, Terminal), Err(Expired))
          else
            (anchored.(phase := Reconnecting(st.nextAttempt, nextRetry, deadline, lastError),
                       nextAttempt := Min(st.nextAttempt + 1, U32_MAX)), Ok(()))
  }

  function RetryNow(st: State, now: Duration): (State, Result<(), Error>)
  {
    if st.phase.Reconnecting? && now < st.phase.deadline
    then (st.(phase := st.phase.(nextRetry := now)), Ok(()))
    else (st, Err(Expired))
  }

  function TakeDue(st: State, now: Duration, generation: nat, identity: Identity)
    : (State, Result<Option<Attempt>, Error>)
  {
    if !st.phase.Reconnecting? then (st, Ok(None))
    else if generation != st.generation || identity != st.identity then
      (Forget(st, Terminal), Err(GenerationMismatch))
    else if now < st.phase.nextRetry then (st, Ok(None))
    else if now >= st.phase.deadline then (Forget(st, Terminal), Err(Expired))
    else if st.detachedAt.None? then (Forget(st, Terminal), Err(Expired))
    else if st.credential.None? then (st, Err(Expired))
    else if st.credential.value.identity != st.identity then (Forget(st, Terminal), Err(GenerationMismatch))
    else
      var c := st.credential.value;
      var gap: Duration := if now >= st.detachedAt.value then now - st.detachedAt.value else 0;
      (st.(phase := Resuming(st.phase.attempt, st.phase.deadline, st.phase.lastError)),
       Ok(Some(Attempt(c.holderNonce, c.grant, c.previousSid, st.generation, st.identity, st.phase.attempt, gap))))
  }

  function Expire(st: State, now: Duration): (State, bool)
  {
    if (st.phase.Reconnecting? || st.phase.Resuming?) && now >= st.phase.deadline
    then (Forget(st, Terminal), true)
    else (st, false)
  }

  datatype Call =
    | AcceptInitialCall(grant: Option<string>, window: Option<Duration>, resumed: bool, sid: string)
    | AcceptResumeCall(grant: Option<string>, window: Option<Duration>, resumed: bool, sid: string, now: Duration)
    | AcceptRefreshCall(grant: Option<string>, window: Option<Duration>, resumed: bool, sid: string)
    | ScheduleCall(lastError: string, now: Duration, delay: Option<Duration>)
    | RetryNowCall(now: Duration)
    | TakeDueCall(now: Duration, generation: nat, identity: Identity)
    | ExpireCall(now: Duration)
    | ManualCancelCall
    | TerminalCall

  function Step(st: State, call: Call): State
  {
    match call
    case AcceptInitialCall(grant, window, resumed, sid) => AcceptInitial(st, grant, window, resumed, sid).0
    case AcceptResumeCall(grant, window, resumed, sid, now) => AcceptResume(st, grant, window, resumed, sid, now).0
    case AcceptRefreshCall(grant, window, resumed, sid) => AcceptRefresh(st, grant, window, resumed, sid).0
    case ScheduleCall(lastError, now, delay) => Schedule(st, lastError, now, delay).0
    case RetryNowCall(now) => RetryNow(st, now).0
    case TakeDueCall(now, generation, identity) => TakeDue(st, now, generation, identity).0
    case ExpireCall(now) => Expire(st, now).0
    case ManualCancelCall => Forget(st, Cancelled)
    case TerminalCall => Forget(st, Terminal)
  }

  /** The state after a history of calls. */
  function After(init: State, calls: seq<Call>): State
  {
    if calls == [] then init else Step(After(init, calls[..|calls| - 1]), calls[|calls| - 1])
  }

  /** The resume attempt a call hands out, if it hands one out. */
  function Issued(st: State, call: Call): Option<Attempt>
  {
    if call.TakeDueCall? && TakeDue(st, call.now, call.generation, call.identity).1.Ok?
    then TakeDue(st, call.now, call.generation, call.identity).1.value
    else None
  }
}
