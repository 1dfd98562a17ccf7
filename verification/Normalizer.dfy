/**
 Resampling of captured audio to 48 kHz frames.

 A phase accumulator decides how often each source sample is repeated; full frames go to the
 capture queue.  Cancellation may be requested at any moment by another thread and is never
 taken back.  Samples are reals here: the source's `f32` rounding is not modelled.
 */
module Normalizer {
  import opened Arithmetic
  import opened CaptureQueues

  const FRAME_SAMPLES: nat := 960
  const TARGET_RATE: nat := 48_000
  const U32: nat := 0x1_0000_0000
  const U64_MAX: nat := 0xFFFF_FFFF_FFFF_FFFF

  /** Clamp to [-1, 1], scale to `i16` and round half away from zero. */
  function Scale(sample: real): (v: int)
    ensures -32767 <= v <= 32767
  {
    var clamped := if sample < -1.0 then -1.0 else if sample > 1.0 then 1.0 else sample;
    var scaled := clamped * 32767.0;
    if scaled >= 0.0 then (scaled + 0.5).Floor else -((-scaled + 0.5).Floor)
  }

  /** Full scale beyond the ends; between them the nearest integer, the one away from zero if two are
      equally near; and the same above and below zero. */
  lemma ScaleIsNearest(sample: real)
    ensures sample >= 1.0 ==> Scale(sample) == 32767
    ensures sample <= -1.0 ==> Scale(sample) == -32767
    ensures -1.0 <= sample <= 1.0 ==>
      var error := Scale(sample) as real - sample * 32767.0;
      -0.5 <= error <= 0.5 && (error == -0.5 ==> sample < 0.0) && (error == 0.5 ==> sample > 0.0)
    ensures Scale(-sample) == -Scale(sample)
  {
  }

  function Repeat(v: int, n: nat): (s: seq<int>)
    ensures |s| == n
  {
    seq(n, _ => v)
  }

  lemma OneRepeatMore(v: int, n: nat, rate: nat)
    ensures Repeat(v, n + 1) == Repeat(v, n) + [v]
    ensures rate * (n + 1) == rate * n + rate
  {
  }

  /** How many samples `n` source samples give. */
  function Due(n: nat, rate: nat): nat
    requires rate > 0
  {
    TARGET_RATE * n / rate
  }

  lemma DueGrows(n: nat, rate: nat)
    requires rate > 0
    ensures Due(n, rate) <= Due(n + 1, rate)
  {
    var a, b := TARGET_RATE * n, TARGET_RATE * (n + 1);
    assert rate * (a / rate) <= a < b;
    if b / rate < a / rate {
      assert rate * (b / rate) + rate == rate * (b / rate + 1);
      MulNonnegative(rate, a / rate - b / rate - 1);
      assert rate * (a / rate - b / rate - 1) == rate * (a / rate) - rate * (b / rate) - rate;
    }
  }

  /** The resampled signal: each source sample held until the next is due. */
  ghost function Held(source: seq<real>, rate: nat): seq<int>
    requires rate > 0
  {
    if source == [] then []
    else
      var n := |source| - 1;
      DueGrows(n, rate);
      Held(source[..n], rate) + Repeat(Scale(source[n]), Due(n + 1, rate) - Due(n, rate))
  }

  lemma {:induction false} HeldLength(source: seq<real>, rate: nat)
    requires rate > 0
    ensures |Held(source, rate)| == Due(|source|, rate)
  {
    if source == [] {
      assert TARGET_RATE * 0 / rate == 0;
    } else {
      DueGrows(|source| - 1, rate);
      HeldLength(source[..|source| - 1], rate);
    }
  }

  ghost predicate Resampled(source: seq<real>, signal: seq<int>, rate: nat, phase: nat)
  {
    && phase < rate
    && phase + rate * |signal| == TARGET_RATE * |source|
    && signal == Held(source, rate)
  }

  /** The wrapping increments: 0 is never a sequence number. */
  function NextSequence(sequence: nat): nat
  {
    var next := (sequence + 1) % U32;
    if next == 0 then 1 else next
  }

  function NextTimestamp(timestampMs: nat): nat { (timestampMs + 20) % U32 }

  /** Sequence number and timestamp of frame `k`, counted from 0. */
  function SequenceOf(k: nat): nat { if k == 0 then 1 else NextSequence(SequenceOf(k - 1)) }

  function TimestampOf(k: nat): nat { if k == 0 then 0 else NextTimestamp(TimestampOf(k - 1)) }

  /** The remainder of the next number, by hand. */
  lemma NextRemainder(k: nat, m: nat)
    requires m > 1
    ensures (k + 1) % m == if k % m == m - 1 then 0 else k % m + 1
  {
    var q, r := k / m, k % m;
    assert k == m * q + r && m * (q + 1) == m * q + m;
    DivIs(k + 1, m, if r == m - 1 then q + 1 else q);
  }

  lemma {:induction false} SequenceIs(k: nat)
    ensures SequenceOf(k) == k % (U32 - 1) + 1
  {
    if k > 0 {
      SequenceIs(k - 1);
      NextRemainder(k - 1, U32 - 1);
    }
  }

  lemma TimestampStep(t: nat)
    ensures (t % U32 + 20) % U32 == (t + 20) % U32
  {
    var q, r := t / U32, t % U32;
    var wraps := if r + 20 >= U32 then 1 else 0;
    assert t == U32 * q + r;
    DivIs(r + 20, U32, wraps);
    DivIs(t + 20, U32, q + wraps);
  }

  lemma {:induction false} TimestampIs(k: nat)
    ensures TimestampOf(k) == 20 * k % U32
  {
    if k > 0 {
      TimestampIs(k - 1);
      TimestampStep(20 * (k - 1));
    }
  }

  lemma SequenceClosedForm(k: nat)
    ensures SequenceOf(k) == k % (U32 - 1) + 1
    ensures TimestampOf(k) == 20 * k % U32
  {
    SequenceIs(k);
    TimestampIs(k);
  }

  /** The frames a signal fills, the first of them being frame `base`. */
  ghost function FramesOf(signal: seq<int>, base: nat): (fs: seq<Frame>)
    ensures |fs| == |signal| / FRAME_SAMPLES
  {
    seq(|signal| / FRAME_SAMPLES, k requires 0 <= k < |signal| / FRAME_SAMPLES =>
      Frame(signal[FRAME_SAMPLES * k..FRAME_SAMPLES * k + FRAME_SAMPLES], SequenceOf(base + k), TimestampOf(base + k)))
  }

  lemma FramesWithOneMore(signal: seq<int>, v: int, base: nat)
    ensures var more := signal + [v];
      if |signal| % FRAME_SAMPLES == FRAME_SAMPLES - 1 then
        && |more| % FRAME_SAMPLES == 0 && |more| / FRAME_SAMPLES == |signal| / FRAME_SAMPLES + 1
        && FramesOf(more, base) == FramesOf(signal, base)
             + [Frame(more[|more| - FRAME_SAMPLES..], SequenceOf(base + |signal| / FRAME_SAMPLES),
                      TimestampOf(base + |signal| / FRAME_SAMPLES))]
      else
        && |more| % FRAME_SAMPLES == |signal| % FRAME_SAMPLES + 1 && |more| / FRAME_SAMPLES == |signal| / FRAME_SAMPLES
        && FramesOf(more, base) == FramesOf(signal, base)
  {
    var more := signal + [v];
    var k := |signal| / FRAME_SAMPLES;
    assert forall j :: 0 <= j < k ==>
      more[FRAME_SAMPLES * j..FRAME_SAMPLES * j + FRAME_SAMPLES]
      == signal[FRAME_SAMPLES * j..FRAME_SAMPLES * j + FRAME_SAMPLES];
    if |signal| % FRAME_SAMPLES == FRAME_SAMPLES - 1 {
      assert more[FRAME_SAMPLES * k..FRAME_SAMPLES * k + FRAME_SAMPLES] == more[|more| - FRAME_SAMPLES..];
    }
  }

  /** A signal cut into the frames offered since frame `base` and a partial one. */
  ghost predicate Cut(signal: seq<int>, partial: seq<int>, made: nat, base: nat,
                      offered: seq<Frame>, earlier: seq<Frame>)
  {
    && |partial| == |signal| % FRAME_SAMPLES
    && partial == signal[|signal| - |partial|..]
    && made == base + |signal| / FRAME_SAMPLES
    && offered == earlier + FramesOf(signal, base)
  }

  lemma CutOneMore(signal: seq<int>, partial: seq<int>, made: nat, base: nat,
                   offered: seq<Frame>, earlier: seq<Frame>, v: int)
    requires Cut(signal, partial, made, base, offered, earlier)
    ensures if |partial| + 1 == FRAME_SAMPLES
      then Cut(signal + [v], [], made + 1, base,
               offered + [Frame(partial + [v], SequenceOf(made), TimestampOf(made))], earlier)
      else Cut(signal + [v], partial + [v], made, base, offered, earlier)
  {
    FramesWithOneMore(signal, v, base);
    assert partial + [v] == (signal + [v])[|signal| - |partial|..];
  }

  /** A cancellation flag another thread may set at any time; it is never cleared. */
  class CancelToken {
    var fired: bool

    method Load() returns (cancelled: bool)
      modifies this
      ensures old(fired) ==> fired
      ensures cancelled == fired
    {
      if * { fired := true; }
      cancelled := fired;
    }
  }

  /** Hands a full frame to the queue. */
  method Offer(queue: CaptureQueue, full: Frame)
    requires queue.Valid()
    modifies queue
    ensures queue.Valid() && queue.offered == old(queue.offered) + [full]
  {
    queue.PushDropOldest(full);
  }

  class CaptureNormalizer {
    const rate: nat
    var phase: nat
    var frame: array<int>
    var frameLen: nat
    var sequence: nat
    var timestampMs: nat

    ghost var source: seq<real>      // samples pushed since the last clear
    ghost var signal: seq<int>       // samples written to frames since the last clear
    ghost var made: nat              // frames filled in this normalizer's life
    ghost var base: nat              // frames filled before the last clear
    ghost var earlier: seq<Frame>    // frames the queue had been offered at the last clear

    /** What holds between calls, cancelled or not: the write position is in bounds, or a
        cancellation keeps it from being used. */
    ghost predicate Valid(token: CancelToken)
      reads this, token
    {
      && 0 < rate < U32 && frame.Length == FRAME_SAMPLES
      && frameLen <= FRAME_SAMPLES && (frameLen == FRAME_SAMPLES ==> token.fired)
      && sequence == SequenceOf(made) && timestampMs == TimestampOf(made)
    }

    /** The signal so far, cut into offered frames and the partial one. */
    ghost predicate Packed(queue: CaptureQueue)
      reads this, frame, queue
    {
      frameLen <= frame.Length && Cut(signal, frame[..frameLen], made, base, queue.offered, earlier)
    }

    /** Exact resampling: what the pushes so far call for, and nothing else, has been produced. */
    ghost predicate Exact(queue: CaptureQueue)
      reads this, frame, queue
    {
      Resampled(source, signal, rate, phase) && Packed(queue)
    }

    constructor (rate: nat, queue: CaptureQueue, token: CancelToken)
      requires 0 < rate < U32
      ensures Valid(token) && Exact(queue) && fresh(frame) && this.rate == rate
      ensures source == [] && made == 0 && earlier == queue.offered
    {
      this.rate, phase, frameLen, sequence, timestampMs := rate, 0, 0, 1, 0;
      frame := new int[FRAME_SAMPLES](_ => 0);
      source, signal, made, base, earlier := [], [], 0, 0, queue.offered;
    }

    method Write(v: int)
      requires frameLen < frame.Length && phase >= rate
      modifies this, frame
      ensures frame == old(frame) && frameLen == old(frameLen) + 1 && frame[..frameLen] == old(frame[..frameLen]) + [v]
      ensures phase == old(phase) - rate && signal == old(signal) + [v]
      ensures sequence == old(sequence) && timestampMs == old(timestampMs) && made == old(made)
      ensures source == old(source) && base == old(base) && earlier == old(earlier)
    {
      phase := phase - rate;
      frame[frameLen] := v;
      frameLen := frameLen + 1;
      signal := signal + [v];
    }

    method CloseFrame() returns (full: Frame)
      modifies this
      ensures full == old(Frame(frame[..], sequence, timestampMs))
      ensures fresh(frame) && frame.Length == FRAME_SAMPLES
      ensures sequence == NextSequence(old(sequence)) && timestampMs == NextTimestamp(old(timestampMs))
      ensures made == old(made) + 1 && frameLen == old(frameLen) && phase == old(phase)
      ensures signal == old(signal) && source == old(source) && base == old(base) && earlier == old(earlier)
    {
      full := Frame(frame[..], sequence, timestampMs);
      frame := new int[FRAME_SAMPLES](_ => 0);
      sequence := (sequence + 1) % U32;
      if sequence == 0 { sequence := 1; }
      timestampMs := (timestampMs + 20) % U32;
      made := made + 1;
    }

    /** The body of the loop in `push`, after its cancellation check: one output sample. */
    method Emit(v: int, queue: CaptureQueue, token: CancelToken) returns (stopped: bool)
      requires Valid(token) && queue.Valid() && frameLen < FRAME_SAMPLES && phase >= rate
      modifies this, frame, queue, token
      ensures Valid(token) && queue.Valid() && (frame == old(frame) || fresh(frame))
      ensures source == old(source) && base == old(base) && earlier == old(earlier)
      ensures phase == old(phase) - rate && signal == old(signal) + [v]
      ensures old(token.fired) ==> token.fired
      ensures stopped ==> token.fired
      ensures !stopped ==> frameLen < FRAME_SAMPLES
      ensures !token.fired && old(Packed(queue)) ==> Packed(queue)
    {
      if Packed(queue) { CutOneMore(signal, frame[..frameLen], made, base, queue.offered, earlier, v); }
      Write(v);
      if frameLen == FRAME_SAMPLES {
        assert frame[..] == frame[..frameLen];
        var full := CloseFrame();
        var cancelled := token.Load();
        if cancelled { return true; }
        Offer(queue, full);
        frameLen := 0;
      }
      return false;
    }

    /** The loop in `push`: repeats `v` while the phase holds a whole output period. */
    method Drain(v: int, queue: CaptureQueue, token: CancelToken) returns (ghost repeats: nat)
      requires Valid(token) && queue.Valid()
      modifies this, frame, queue, token
      ensures Valid(token) && queue.Valid() && (frame == old(frame) || fresh(frame))
      ensures source == old(source) && base == old(base) && earlier == old(earlier)
      ensures old(token.fired) ==> token.fired && signal == old(signal) && queue.offered == old(queue.offered)
      ensures !token.fired ==> phase < rate && phase + rate * repeats == old(phase)
      ensures !token.fired ==> signal == old(signal) + Repeat(v, repeats)
      ensures !token.fired && old(Packed(queue)) ==> Packed(queue)
    {
      repeats := 0;
      while phase >= rate
        invariant Valid(token) && queue.Valid() && (frame == old(frame) || fresh(frame))
        invariant source == old(source) && base == old(base) && earlier == old(earlier)
        invariant old(token.fired) ==> token.fired && signal == old(signal) && queue.offered == old(queue.offered)
        invariant !token.fired ==> phase + rate * repeats == old(phase)
        invariant !token.fired ==> signal == old(signal) + Repeat(v, repeats)
        invariant !token.fired && old(Packed(queue)) ==> Packed(queue)
      {
        var cancelled := token.Load();
        if cancelled { return; }
        var stopped := Emit(v, queue, token);
        OneRepeatMore(v, repeats, rate);
        repeats := repeats + 1;
        if stopped { return; }
      }
    }

    /** One source sample.  Unless it was cancelled, resampling stays exact; and a cancelled
        normalizer writes nothing at all. */
    method Push(sample: real, queue: CaptureQueue, token: CancelToken)
      requires Valid(token) && queue.Valid()
      modifies this, frame, queue, token
      ensures Valid(token) && queue.Valid() && (frame == old(frame) || fresh(frame))
      ensures old(token.fired) ==> token.fired && signal == old(signal) && queue.offered == old(queue.offered)
      ensures !token.fired && old(Exact(queue)) ==> Exact(queue)
      ensures source == old(source) + [sample] && base == old(base) && earlier == old(earlier)
    {
      phase := if phase + TARGET_RATE <= U64_MAX then phase + TARGET_RATE else U64_MAX;
      source := source + [sample];
      ghost var repeats := Drain(Scale(sample), queue, token);
      if !token.fired && old(Exact(queue)) {
        HeldIs(old(source), sample, rate, old(signal), old(phase), repeats, phase);
      }
    }

    /** Starts over after an interruption; sequence numbers and timestamps go on. */
    method Clear(queue: CaptureQueue, token: CancelToken)
      requires Valid(token)
      modifies this, frame
      ensures Valid(token) && frame == old(frame) && frameLen == 0
      ensures source == [] && Exact(queue) && sequence == old(sequence) && timestampMs == old(timestampMs)
    {
      phase := 0;
      forall i | 0 <= i < frame.Length { frame[i] := 0; }
      frameLen := 0;
      source, signal, base, earlier := [], [], made, queue.offered;
    }
  }

  /** The repetitions the phase accumulator asks for are those the resampled signal has. */
  lemma HeldIs(source: seq<real>, sample: real, rate: nat, signal: seq<int>, before: nat, repeats: nat, phase: nat)
    requires Resampled(source, signal, rate, before)
    requires phase < rate && phase + rate * repeats == before + TARGET_RATE
    ensures Resampled(source + [sample], signal + Repeat(Scale(sample), repeats), rate, phase)
  {
    var all := source + [sample];
    assert all[..|source|] == source;
    assert rate * (|signal| + repeats) == rate * |signal| + rate * repeats;
    HeldLength(source, rate);
    DivIs(TARGET_RATE * (|source| + 1), rate, |signal| + repeats);
  }

  /** The produced sample count is the rounded-down ratio and the phase is its remainder, so the
      frame count and the partial frame's length are that count's quotient and remainder. */
  lemma ExactCounts(source: seq<real>, signal: seq<int>, rate: nat, phase: nat)
    requires Resampled(source, signal, rate, phase)
    ensures |signal| == TARGET_RATE * |source| / rate && phase == TARGET_RATE * |source| % rate
  {
    DivIs(TARGET_RATE * |source|, rate, |signal|);
  }

  /** Output sample `k` is the source sample that was pushed when it fell due. */
  lemma {:induction false} HeldAt(source: seq<real>, rate: nat, i: nat, k: nat)
    requires rate > 0 && i < |source| && Due(i, rate) <= k < Due(i + 1, rate)
    ensures k < |Held(source, rate)| && Held(source, rate)[k] == Scale(source[i])
  {
    var n := |source| - 1;
    DueGrows(n, rate);
    HeldLength(source[..n], rate);
    if i < n {
      HeldAt(source[..n], rate, i, k);
    }
  }
}
