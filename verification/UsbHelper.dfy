/**
 Framing between the Deck and its privileged USB helper.

 A frame is a little-endian length, a tag and a payload; the length covers the tag.  Received
 bytes collect in `rx` until they hold a whole frame.  The socket is the list of chunks its
 reads will deliver; reading past the last one finds the connection closed.
 */
module UsbHelper {
  import opened Wrappers
  import opened Bytes

  const TAG_COMPLETE: byte := 4
  const TAG_ERROR: byte := 5
  const MAX_TRANSFER_BYTES: nat := 16 * 1024
  const MAX_FRAME_BYTES: nat := MAX_TRANSFER_BYTES + 1024

  datatype FrameError = EmptyFrame | Oversized(len: nat)

  datatype Taken = NeedMore | Bad(error: FrameError) | Frame(tag: byte, payload: seq<byte>, rest: seq<byte>)

  /** One whole frame from the front of a buffer, if it holds one. */
  function Take(buffer: seq<byte>): Taken
  {
    if |buffer| < 4 then NeedMore
    else
      var len := FromLe32(buffer[..4]);
      if len == 0 then Bad(EmptyFrame)
      else if len > MAX_FRAME_BYTES then Bad(Oversized(len))
      else if |buffer| < 4 + len then NeedMore
      else Frame(buffer[4], buffer[5..4 + len], buffer[4 + len..])
  }

  predicate Admitted(payload: seq<byte>) { |payload| + 1 <= MAX_FRAME_BYTES }

  /** What `write_frame` puts on the wire for a payload it admits. */
  function Written(tag: byte, payload: seq<byte>): (wire: seq<byte>)
    requires Admitted(payload)
    ensures |wire| == 5 + |payload|
  {
    Le32(|payload| + 1) + [tag] + payload
  }

  /** A frame is recognised exactly when its bytes have arrived, and it is the frame written. */
  lemma TakeIsInverseOfWritten(buffer: seq<byte>, tag: byte, payload: seq<byte>, rest: seq<byte>)
    ensures Take(buffer) == Frame(tag, payload, rest) <==>
      Admitted(payload) && buffer == Written(tag, payload) + rest
  {
    if Admitted(payload) && buffer == Written(tag, payload) + rest {
      TakeWritten(tag, payload, rest);
    }
    if Take(buffer) == Frame(tag, payload, rest) {
      WrittenTaken(buffer);
    }
  }

  lemma TakeWritten(tag: byte, payload: seq<byte>, rest: seq<byte>)
    requires Admitted(payload)
    ensures Take(Written(tag, payload) + rest) == Frame(tag, payload, rest)
  {
    var buffer := Written(tag, payload) + rest;
    Le32RoundTrip(|payload| + 1);
    assert buffer[..4] == Le32(|payload| + 1);
    assert buffer[5..5 + |payload|] == payload && buffer[5 + |payload|..] == rest;
  }

  lemma WrittenTaken(buffer: seq<byte>)
    requires Take(buffer).Frame?
    ensures var f := Take(buffer); Admitted(f.payload) && buffer == Written(f.tag, f.payload) + f.rest
  {
    var len := FromLe32(buffer[..4]);
    Le32Inverts(buffer[..4]);
    assert buffer == buffer[..4] + [buffer[4]] + buffer[5..4 + len] + buffer[4 + len..];
  }

  /** A proper prefix of a frame asks for more and is left alone. */
  lemma ProperPrefixNeedsMore(tag: byte, payload: seq<byte>, k: nat)
    requires Admitted(payload) && k < |Written(tag, payload)|
    ensures Take(Written(tag, payload)[..k]) == NeedMore
  {
    if k >= 4 {
      Le32RoundTrip(|payload| + 1);
      assert Written(tag, payload)[..k][..4] == Le32(|payload| + 1);
    }
  }

  /** Bytes that arrive later change nothing about what is already decided. */
  lemma LaterBytesDoNotMatter(buffer: seq<byte>, more: seq<byte>)
    ensures Take(buffer).Frame? ==> Take(buffer + more) == Take(buffer).(rest := Take(buffer).rest + more)
    ensures Take(buffer).Bad? ==> Take(buffer + more) == Take(buffer)
  {
    if |buffer| >= 4 {
      assert (buffer + more)[..4] == buffer[..4];
      var len := FromLe32(buffer[..4]);
      if 0 < len <= MAX_FRAME_BYTES && |buffer| >= 4 + len {
        assert (buffer + more)[5..4 + len] == buffer[5..4 + len];
        assert (buffer + more)[4 + len..] == buffer[4 + len..] + more;
      }
    }
  }

  // ----- What a byte stream means, whatever chunks it arrives in

  datatype Outcome =
    | Completion(payload: seq<byte>, rest: seq<byte>)
    | HelperError(payload: seq<byte>, rest: seq<byte>)
    | Malformed(error: FrameError, rest: seq<byte>)
    | Closed(rest: seq<byte>)

  /** The first completion or error of a stream; frames with other tags are skipped. */
  function Next(stream: seq<byte>): Outcome
    decreases |stream|
  {
    match Take(stream)
    case NeedMore => Closed(stream)
    case Bad(error) => Malformed(error, stream)
    case Frame(tag, payload, rest) =>
      if tag == TAG_COMPLETE then Completion(payload, rest)
      else if tag == TAG_ERROR then HelperError(payload, rest)
      else Next(rest)
  }

  /** All completions of a stream up to the first error or its end. */
  function Completions(stream: seq<byte>): seq<seq<byte>>
    decreases |stream|
  {
    NextIsShorter(stream);
    match Next(stream)
    case Completion(payload, rest) => [payload] + Completions(rest)
    case _ => []
  }

  lemma {:induction false} NextIsShorter(stream: seq<byte>)
    ensures Next(stream).Completion? ==> |Next(stream).rest| < |stream|
    decreases |stream|
  {
    match Take(stream) {
      case Frame(tag, payload, rest) => if tag != TAG_COMPLETE && tag != TAG_ERROR { NextIsShorter(rest); }
      case _ =>
    }
  }

  datatype Message = Message(tag: byte, payload: seq<byte>)

  predicate AllAdmitted(messages: seq<Message>)
  {
    forall i :: 0 <= i < |messages| ==> Admitted(messages[i].payload)
  }

  function Wire(messages: seq<Message>): seq<byte>
    requires AllAdmitted(messages)
  {
    if messages == [] then [] else Written(messages[0].tag, messages[0].payload) + Wire(messages[1..])
  }

  /** The COMPLETE payloads before the first ERROR. */
  function CompletePayloads(messages: seq<Message>): seq<seq<byte>>
  {
    if messages == [] || messages[0].tag == TAG_ERROR then []
    else (if messages[0].tag == TAG_COMPLETE then [messages[0].payload] else []) + CompletePayloads(messages[1..])
  }

  /** All frames of a stream, up to the first malformed one or its end. */
  function Frames(stream: seq<byte>): seq<Message>
    decreases |stream|
  {
    match Take(stream)
    case Frame(tag, payload, rest) => [Message(tag, payload)] + Frames(rest)
    case _ => []
  }

  /** What was written is what is read, whatever the tags, even if the stream breaks off inside a
      last frame. */
  lemma {:induction false} FramesOfWire(messages: seq<Message>, partial: seq<byte>)
    requires AllAdmitted(messages) && Take(partial).NeedMore?
    ensures Frames(Wire(messages) + partial) == messages
    decreases |messages|
  {
    if messages == [] {
      assert Wire(messages) + partial == partial;
    } else {
      var m := messages[0];
      var rest := Wire(messages[1..]) + partial;
      assert Wire(messages) + partial == Written(m.tag, m.payload) + rest;
      TakeWritten(m.tag, m.payload, rest);
      FramesOfWire(messages[1..], partial);
    }
  }

  /** The completions of what the helper wrote are exactly the COMPLETE payloads up to the first
      ERROR, even if the stream breaks off inside a last frame. */
  lemma {:induction false} CompletionsOfWire(messages: seq<Message>, partial: seq<byte>)
    requires AllAdmitted(messages) && Take(partial).NeedMore?
    ensures Completions(Wire(messages) + partial) == CompletePayloads(messages)
    decreases |messages|
  {
    if messages == [] {
      assert Wire(messages) + partial == partial;
    } else {
      var m := messages[0];
      var rest := Wire(messages[1..]) + partial;
      assert Wire(messages) + partial == Written(m.tag, m.payload) + rest;
      TakeWritten(m.tag, m.payload, rest);
      CompletionsOfWire(messages[1..], partial);
    }
  }

  // ----- What has arrived, and what it decides

  /** How a read ends: with bytes or with an error. */
  datatype Read = Chunk(bytes: seq<byte>) | Broken

  function Arriving(arrivals: seq<Read>): seq<byte>
  {
    if arrivals == [] then []
    else (if arrivals[0].Chunk? then arrivals[0].bytes else []) + Arriving(arrivals[1..])
  }

  predicate AllArrive(arrivals: seq<Read>) { forall i :: 0 <= i < |arrivals| ==> arrivals[i].Chunk? }

  lemma {:induction false} ArrivingSplit(a: seq<Read>, b: seq<Read>)
    ensures Arriving(a + b) == Arriving(a) + Arriving(b)
  {
    if a == [] {
      assert a + b == b;
    } else {
      assert (a + b)[0] == a[0] && (a + b)[1..] == a[1..] + b;
      ArrivingSplit(a[1..], b);
    }
  }

  /** Once the stream so far decides the next outcome, later bytes only follow it. */
  lemma {:induction false} DecidedStays(stream: seq<byte>, more: seq<byte>)
    requires !Next(stream).Closed?
    ensures Next(stream + more) == Next(stream).(rest := Next(stream).rest + more)
    decreases |stream|
  {
    LaterBytesDoNotMatter(stream, more);
    match Take(stream) {
      case Frame(tag, payload, rest) => if tag != TAG_COMPLETE && tag != TAG_ERROR { DecidedStays(rest, more); }
      case _ =>
    }
  }

  /** While it decides nothing, the frames it has skipped may be forgotten. */
  lemma {:induction false} UndecidedResumes(stream: seq<byte>, more: seq<byte>)
    requires Next(stream).Closed?
    ensures Take(Next(stream).rest).NeedMore?
    ensures Next(stream + more) == Next(Next(stream).rest + more)
    decreases |stream|
  {
    LaterBytesDoNotMatter(stream, more);
    if Take(stream).Frame? { UndecidedResumes(Take(stream).rest, more); }
  }

  /** The buffer and the bytes of the first `k` reads. */
  function Received(start: seq<byte>, arrivals: seq<Read>, k: nat): seq<byte>
    requires k <= |arrivals|
  {
    start + Arriving(arrivals[..k])
  }

  lemma ReceivedOneMore(start: seq<byte>, arrivals: seq<Read>, k: nat)
    requires k < |arrivals| && arrivals[k].Chunk?
    ensures Received(start, arrivals, k + 1) == Received(start, arrivals, k) + arrivals[k].bytes
  {
    ArrivingSplit(arrivals[..k], [arrivals[k]]);
    assert arrivals[..k + 1] == arrivals[..k] + [arrivals[k]];
    assert Arriving([arrivals[k]]) == arrivals[k].bytes + Arriving([]) == arrivals[k].bytes;
    ConcatAssoc(start, Arriving(arrivals[..k]), arrivals[k].bytes);
  }

  lemma OneMoreRead(start: seq<byte>, arrivals: seq<Read>, k: nat, rest: seq<byte>)
    requires k < |arrivals| && arrivals[k].Chunk? && Next(Received(start, arrivals, k)) == Closed(rest)
    ensures Next(rest + arrivals[k].bytes) == Next(Received(start, arrivals, k + 1))
  {
    UndecidedResumes(Received(start, arrivals, k), arrivals[k].bytes);
    ReceivedOneMore(start, arrivals, k);
  }

  /** No shorter part of what was received decides anything. */
  ghost predicate Undecided(start: seq<byte>, arrivals: seq<Read>, k: nat)
    requires k <= |arrivals|
  {
    AllArrive(arrivals[..k]) && forall j: nat :: j < k ==> Next(Received(start, arrivals, j)).Closed?
  }

  lemma UndecidedOneMore(start: seq<byte>, arrivals: seq<Read>, k: nat)
    requires k < |arrivals| && arrivals[k].Chunk? && Undecided(start, arrivals, k)
    requires Next(Received(start, arrivals, k)).Closed?
    ensures Undecided(start, arrivals, k + 1)
  {
    assert arrivals[..k + 1] == arrivals[..k] + [arrivals[k]];
  }

  /** However a stream is cut into reads: what the first `k` of them decide is what the whole stream
      decides; and if they decide nothing, the whole stream means what is left of them and the rest. */
  lemma ChunksDoNotMatter(start: seq<byte>, arrivals: seq<Read>, k: nat)
    requires k <= |arrivals|
    ensures var first, later := Next(Received(start, arrivals, k)), Arriving(arrivals[k..]);
      Next(start + Arriving(arrivals))
      == if first.Closed? then Next(first.rest + later) else first.(rest := first.rest + later)
  {
    var seen, later := Received(start, arrivals, k), Arriving(arrivals[k..]);
    ReceivedThenLater(start, arrivals, k);
    if Next(seen).Closed? { UndecidedResumes(seen, later); } else { DecidedStays(seen, later); }
  }

  lemma ReceivedThenLater(start: seq<byte>, arrivals: seq<Read>, k: nat)
    requires k <= |arrivals|
    ensures start + Arriving(arrivals) == Received(start, arrivals, k) + Arriving(arrivals[k..])
  {
    ArrivingSplit(arrivals[..k], arrivals[k..]);
    assert arrivals[..k] + arrivals[k..] == arrivals;
    ConcatAssoc(start, Arriving(arrivals[..k]), Arriving(arrivals[k..]));
  }

  // ----- The client

  datatype Error = Framing(error: FrameError) | Reported(payload: seq<byte>) | Disconnected | ReadFailed

  datatype FillResult = Filled | PeerClosed | FillFailed

  /** How one poll of `next_completion` ends: with a result, or dropped at an await. */
  datatype Poll<T> = Ready(result: Result<T, Error>) | Dropped

  class HelperClient {
    var rx: seq<byte>
    var incoming: seq<Read>

    /** Everything the helper has sent that no frame has consumed yet. */
    ghost function Unconsumed(): seq<byte>
      reads this
    {
      rx + Arriving(incoming)
    }

    /** A read that succeeds delivers between 1 and 4096 bytes. */
    ghost predicate Valid()
      reads this
    {
      forall i :: 0 <= i < |incoming| && incoming[i].Chunk? ==> 0 < |incoming[i].bytes| <= 4096
    }

    constructor (rx: seq<byte>, incoming: seq<Read>)
      requires forall i :: 0 <= i < |incoming| && incoming[i].Chunk? ==> 0 < |incoming[i].bytes| <= 4096
      ensures Valid() && this.rx == rx && this.incoming == incoming
    {
      this.rx, this.incoming := rx, incoming;
    }

    method TakeFrame() returns (r: Result<Option<Message>, FrameError>)
      requires Valid()
      modifies this`rx
      ensures match old(Take(rx))
        case NeedMore => r == Ok(None) && rx == old(rx)
        case Bad(error) => r == Err(error) && rx == old(rx)
        case Frame(tag, payload, rest) => r == Ok(Some(Message(tag, payload))) && rx == rest
      ensures Valid()
    {
      if |rx| < 4 { return Ok(None); }
      var len := FromLe32(rx[..4]);
      if len == 0 { return Err(EmptyFrame); }
      if len > MAX_FRAME_BYTES { return Err(Oversized(len)); }
      if |rx| < 4 + len { return Ok(None); }
      var message := Message(rx[4], rx[5..4 + len]);
      rx := rx[4 + len..];
      return Ok(Some(message));
    }

    /** One read: its bytes are appended, all of them and in order; the end of the stream and a
        failed read leave what has been received alone. */
    method Fill() returns (r: FillResult)
      requires Valid()
      modifies this
      ensures Valid() && Unconsumed() == old(Unconsumed())
      ensures if old(incoming) == [] then r == PeerClosed && rx == old(rx) && incoming == []
        else
          && incoming == old(incoming)[1..]
          && match old(incoming)[0]
             case Chunk(bytes) => r == Filled && rx == old(rx) + bytes
             case Broken => r == FillFailed && rx == old(rx)
    {
      if incoming == [] { return PeerClosed; }
      var read := incoming[0];
      incoming := incoming[1..];
      if read.Broken? { return FillFailed; }
      rx := rx + read.bytes;
      return Filled;
    }

    /** Takes frames until one decides, or none is left whole in the buffer. */
    method Drain() returns (r: Option<Result<seq<byte>, Error>>)
      requires Valid()
      modifies this`rx
      ensures Valid()
      ensures match old(Next(rx))
        case Closed(rest) => r == None && rx == rest
        case Completion(payload, rest) => r == Some(Ok(payload)) && rx == rest
        case HelperError(payload, rest) => r == Some(Err(Reported(payload))) && rx == rest
        case Malformed(error, rest) => r == Some(Err(Framing(error))) && rx == rest
    {
      while true
        invariant Next(rx) == old(Next(rx))
        decreases |rx|
      {
        var frame := TakeFrame();
        if frame.Err? { return Some(Err(Framing(frame.error))); }
        if frame.value.None? { return None; }
        var message := frame.value.value;
        if message.tag == TAG_COMPLETE { return Some(Ok(message.payload)); }
        if message.tag == TAG_ERROR { return Some(Err(Reported(message.payload))); }
      }
    }

    /** `next_completion`, dropped when it would await its read number `awaits + 1`.  It makes `made`
        successful made: none more than it takes for the bytes received to decide.  If they do, the
        result is what they decide; if not, the poll ends with the failed read or the end of the
        stream that it meets, or is dropped at its last await, with nothing lost. */
    method NextCompletion(awaits: nat) returns (p: Poll<seq<byte>>, ghost made: nat)
      requires Valid()
      modifies this
      ensures Valid()
      ensures made <= awaits && made <= |old(incoming)| && Undecided(old(rx), old(incoming), made)
      ensures match Next(Received(old(rx), old(incoming), made))
        case Completion(payload, rest) => p == Ready(Ok(payload)) && rx == rest && incoming == old(incoming)[made..]
        case HelperError(payload, rest) =>
          p == Ready(Err(Reported(payload))) && rx == rest && incoming == old(incoming)[made..]
        case Malformed(error, rest) =>
          p == Ready(Err(Framing(error))) && rx == rest && incoming == old(incoming)[made..]
        case Closed(rest) =>
          && rx == rest
          && if made == awaits then p == Dropped && incoming == old(incoming)[made..]
             else if made == |old(incoming)| then p == Ready(Err(Disconnected)) && incoming == []
             else
               && old(incoming)[made].Broken? && p == Ready(Err(ReadFailed))
               && incoming == old(incoming)[made + 1..]
    {
      made := 0;
      var left := awaits;
      ghost var start, all := rx, incoming;
      assert Received(start, all, 0) == start;
      while true
        invariant Valid() && made + left == awaits && made <= |all| && incoming == all[made..]
        invariant Undecided(start, all, made) && Next(rx) == Next(Received(start, all, made))
        decreases |incoming|
      {
        var decided := Drain();
        if decided.Some? { return Ready(decided.value), made; }
        if left == 0 { return Dropped, made; }
        left := left - 1;
        ghost var rest := rx;
        var filled := Fill();
        if filled.FillFailed? { return Ready(Err(ReadFailed)), made; }
        if filled.PeerClosed? { return Ready(Err(Disconnected)), made; }
        OneMoreRead(start, all, made, rest);
        UndecidedOneMore(start, all, made);
        made := made + 1;
      }
    }

    /** Any number of polls, each dropped at any of its awaits, up to the first error.  What they
        return and what is still to come are always the completions of the stream; once the stream
        itself ends them, they have returned all of those; and with no failed read, enough awaits
        and one poll more than there are completions, it does. */
    method PollAll(awaits: seq<nat>) returns (payloads: seq<seq<byte>>, last: Option<Error>)
      requires Valid()
      modifies this
      ensures Valid()
      ensures last.None? || last == Some(ReadFailed) ==>
        payloads + Completions(Unconsumed()) == old(Completions(Unconsumed()))
      ensures last.Some? && last != Some(ReadFailed) ==> payloads == old(Completions(Unconsumed()))
      ensures old(AllArrive(incoming) && Sufficient(awaits, rx, incoming)) ==> last.Some? && last != Some(ReadFailed)
    {
      payloads := [];
      ghost var all := incoming;
      for k := 0 to |awaits|
        invariant Valid() && |incoming| <= |all|
        invariant payloads + Completions(Unconsumed()) == old(Completions(Unconsumed()))
        invariant AllArrive(all) ==> AllArrive(incoming)
        invariant old(AllArrive(incoming) && Sufficient(awaits, rx, incoming)) ==> |payloads| == k
      {
        ghost var before, coming := rx, incoming;
        ghost var made;
        var p;
        p, made := NextCompletion(awaits[k]);
        PollMeans(before, coming, made, rx, incoming);
        if p.Ready? {
          if p.result.Err? { return payloads, Some(p.result.error); }
          ConcatAssoc(payloads, [p.result.value], Completions(Unconsumed()));
          payloads := payloads + [p.result.value];
        }
      }
      return payloads, None;
    }

    /** The handshake's blocking read of exactly one frame: it reads no more than the frame takes. */
    method ReadFrame() returns (r: Result<Message, Error>, ghost made: nat)
      requires Valid()
      modifies this
      ensures Valid()
      ensures made <= |old(incoming)| && AllArrive(old(incoming)[..made])
      ensures forall j: nat :: j < made ==> Take(Received(old(rx), old(incoming), j)).NeedMore?
      ensures match Take(Received(old(rx), old(incoming), made))
        case Frame(tag, payload, rest) =>
          r == Ok(Message(tag, payload)) && rx == rest && incoming == old(incoming)[made..]
        case Bad(error) =>
          r == Err(Framing(error)) && rx == Received(old(rx), old(incoming), made) && incoming == old(incoming)[made..]
        case NeedMore =>
          && rx == Received(old(rx), old(incoming), made)
          && if made == |old(incoming)| then r == Err(Disconnected) && incoming == []
             else old(incoming)[made].Broken? && r == Err(ReadFailed) && incoming == old(incoming)[made + 1..]
    {
      made := 0;
      ghost var start, all := rx, incoming;
      assert Received(start, all, 0) == start;
      while true
        invariant Valid() && made <= |all| && incoming == all[made..] && AllArrive(all[..made])
        invariant rx == Received(start, all, made)
        invariant forall j: nat :: j < made ==> Take(Received(start, all, j)).NeedMore?
        decreases |incoming|
      {
        var frame := TakeFrame();
        if frame.Err? { return Err(Framing(frame.error)), made; }
        if frame.value.Some? { return Ok(frame.value.value), made; }
        var filled := Fill();
        if filled.FillFailed? { return Err(ReadFailed), made; }
        if filled.PeerClosed? { return Err(Disconnected), made; }
        ReceivedOneMore(start, all, made);
        made := made + 1;
      }
    }
  }

  /** Every poll may await past the last read, and there is one poll more than completions. */
  ghost predicate Sufficient(awaits: seq<nat>, rx: seq<byte>, incoming: seq<Read>)
  {
    && (forall i :: 0 <= i < |awaits| ==> awaits[i] > |incoming|)
    && |awaits| > |Completions(rx + Arriving(incoming))|
  }

  /** What a poll that made `k` reads has left is what follows the outcome it has seen. */
  lemma PollMeans(before: seq<byte>, coming: seq<Read>, k: nat, after: seq<byte>, left: seq<Read>)
    requires k <= |coming| && after == Next(Received(before, coming, k)).rest
    requires left == coming[k..] || (k < |coming| && coming[k].Broken? && left == coming[k + 1..])
    ensures var first, all := Next(Received(before, coming, k)), Completions(before + Arriving(coming));
      && (first.Completion? ==> all == [first.payload] + Completions(after + Arriving(left)))
      && (first.Closed? ==> all == Completions(after + Arriving(left)))
      && (first.HelperError? || first.Malformed? || (first.Closed? && k == |coming|) ==> all == [])
  {
    ChunksDoNotMatter(before, coming, k);
    if left != coming[k..] { assert coming[k..][1..] == left; }
    assert Arriving(left) == Arriving(coming[k..]);
    var first := Next(Received(before, coming, k));
    CompletionsFollowNext(before + Arriving(coming), after + Arriving(left));
    if first.Closed? && k == |coming| {
      assert Arriving(coming[k..]) == [] && after + [] == after;
      UndecidedResumes(Received(before, coming, k), []);
    }
  }

  lemma CompletionsFollowNext(before: seq<byte>, after: seq<byte>)
    ensures Next(before) == Next(after) ==> Completions(before) == Completions(after)
    ensures Next(before).Completion? ==>
      Completions(before) == [Next(before).payload] + Completions(Next(before).rest)
    ensures !Next(before).Completion? ==> Completions(before) == []
  {
  }

  /** A frame that says it is empty or too long is refused as soon as its length has arrived. */
  lemma BadLengthIsRefused(len: nat, more: seq<byte>)
    requires len < U32
    ensures Take(Le32(len) + more) == Bad(EmptyFrame) <==> len == 0
    ensures Take(Le32(len) + more) == Bad(Oversized(len)) <==> len > 17_408
    ensures Take(Le32(len) + more).NeedMore? <==> 0 < len <= 17_408 && |more| < len
  {
    Le32RoundTrip(len);
    assert (Le32(len) + more)[..4] == Le32(len);
  }
}
