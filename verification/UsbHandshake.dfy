/** The handshake over the wire: what the helper sends, and what the Deck makes of it. */
module UsbHandshake {
  import opened Wrappers
  import opened Bytes
  import opened UsbHelper
  import opened UsbHello

  const TAG_HELLO: byte := 1
  const MAX_CLAIMED_REPORT_DESCRIPTOR_BYTES: nat := 12 * 1024

  // ----- The helper's side

  /** The handshake frame, if the helper can encode it and the frame admits it. */
  function Sent(h: Hello): Option<seq<byte>>
  {
    if Encodable(h) && Admitted(Encode(h).value) then Some(Written(TAG_HELLO, Encode(h).value)) else None
  }

  function DescriptorBytes(descriptors: seq<Descriptor>): nat
  {
    if descriptors == [] then 0 else 3 + |descriptors[0].bytes| + DescriptorBytes(descriptors[1..])
  }

  function HelloLength(h: Hello): nat { 9 + DescriptorBytes(h.descriptors) }

  /** The helper's own test before it encodes. */
  predicate HelloFits(h: Hello) { HelloLength(h) + 1 <= MAX_FRAME_BYTES }

  lemma {:induction false} EncodedBytes(descriptors: seq<Descriptor>)
    requires forall i :: 0 <= i < |descriptors| ==> |descriptors[i].bytes| <= 0xFFFF
    ensures |EncodeAll(descriptors)| == DescriptorBytes(descriptors)
  {
    if descriptors != [] { EncodedBytes(descriptors[1..]); }
  }

  /** The helper's test is exactly the frame's bound on what it encodes. */
  lemma FitsIffAdmitted(h: Hello)
    requires Encodable(h)
    ensures |Encode(h).value| == HelloLength(h)
    ensures HelloFits(h) <==> Admitted(Encode(h).value)
  {
    EncodedBytes(h.descriptors);
  }

  function TotalBytes(descriptors: seq<Descriptor>): nat
  {
    if descriptors == [] then 0 else |descriptors[0].bytes| + TotalBytes(descriptors[1..])
  }

  lemma {:induction false} BytesAndHeaders(descriptors: seq<Descriptor>)
    ensures DescriptorBytes(descriptors) == 3 * |descriptors| + TotalBytes(descriptors)
  {
    if descriptors != [] { BytesAndHeaders(descriptors[1..]); }
  }

  /** Within the bounds shared with the host, every handshake fits the frame. */
  lemma ClaimedAlwaysFits(h: Hello)
    requires |h.descriptors| <= MAX_INTERFACES && TotalBytes(h.descriptors) <= MAX_CLAIMED_REPORT_DESCRIPTOR_BYTES
    ensures HelloFits(h)
  {
    BytesAndHeaders(h.descriptors);
  }

  // ----- The Deck's side

  datatype ConnectError =
    | NoFrame(error: Error) | Refused(payload: seq<byte>) | UnexpectedTag(tag: byte) | ShortHandshake

  function Understood(m: Message): Result<Hello, ConnectError>
  {
    if m.tag == TAG_ERROR then Err(Refused(m.payload))
    else if m.tag != TAG_HELLO then Err(UnexpectedTag(m.tag))
    else match Decoded(m.payload) case Some(h) => Ok(h) case None => Err(ShortHandshake)
  }

  /** What a stream of bytes tells a connecting Deck, however it is cut into reads. */
  function Connected(stream: seq<byte>): Result<Hello, ConnectError>
  {
    match Take(stream)
    case NeedMore => Err(NoFrame(Disconnected))
    case Bad(error) => Err(NoFrame(UsbHelper.Framing(error)))
    case Frame(tag, payload, _) => Understood(Message(tag, payload))
  }

  method Connect(client: HelperClient) returns (r: Result<Hello, ConnectError>)
    requires client.Valid()
    modifies client
    ensures client.Valid()
    ensures r != Err(NoFrame(ReadFailed)) ==> r == old(Connected(client.Unconsumed()))
    ensures old(AllArrive(client.incoming)) ==> r != Err(NoFrame(ReadFailed))
    ensures r.Ok? ==>
      old(Take(client.Unconsumed())).Frame? && client.Unconsumed() == old(Take(client.Unconsumed())).rest
  {
    ghost var start, all := client.rx, client.incoming;
    var frame;
    ghost var made;
    frame, made := client.ReadFrame();
    ReceivedThenLater(start, all, made);
    LaterBytesDoNotMatter(Received(start, all, made), Arriving(all[made..]));
    assert made == |all| ==> Arriving(all[made..]) == [];
    if frame.Err? { return Err(NoFrame(frame.error)); }
    var message := frame.value;
    if message.tag == TAG_ERROR { return Err(Refused(message.payload)); }
    if message.tag != TAG_HELLO { return Err(UnexpectedTag(message.tag)); }
    var hello := DecodeHello(message.payload);
    return if hello.Some? then Ok(hello.value) else Err(ShortHandshake);
  }

  // ----- The two sides together

  /** A handshake reaches the Deck as it was meant exactly if the helper can encode it, it is
      within the Deck's bounds and it fits the frame; whatever the helper sends after it. */
  lemma HandshakeArrivesIff(h: Hello, after: seq<byte>)
    ensures Sent(h).Some? && Connected(Sent(h).value + after) == Ok(h)
       <==> Encodable(h) && Acceptable(h) && HelloFits(h)
  {
    if Encodable(h) {
      FitsIffAdmitted(h);
      HelloRoundTrip(h);
      if Admitted(Encode(h).value) { TakeWritten(TAG_HELLO, Encode(h).value, after); }
    }
  }

  /** Any other first frame is an error that says what it was. */
  lemma OtherFramesAreRefused(tag: byte, payload: seq<byte>, after: seq<byte>)
    requires Admitted(payload) && tag != 1
    ensures Connected(Written(tag, payload) + after) == Err(if tag == 5 then Refused(payload) else UnexpectedTag(tag))
  {
    TakeWritten(tag, payload, after);
  }

  function Large(n: nat): seq<Descriptor> { seq(n, _ => Descriptor(0, seq(MAX_HID_REPORT_DESCRIPTOR_BYTES, _ => 0))) }

  lemma {:induction false} LargeBytes(n: nat)
    ensures TotalBytes(Large(n)) == n * MAX_HID_REPORT_DESCRIPTOR_BYTES
  {
    if n > 0 {
      assert Large(n)[1..] == Large(n - 1);
      LargeBytes(n - 1);
    }
  }

  /** The frame is the tighter bound: five full descriptors are acceptable and cannot be sent. */
  lemma AcceptableMayNotFit()
    ensures var h := Hello(0, 0, 0, 0, 0, Large(5)); Encodable(h) && Acceptable(h) && Sent(h).None?
  {
    var h := Hello(0, 0, 0, 0, 0, Large(5));
    LargeBytes(5);
    BytesAndHeaders(Large(5));
    FitsIffAdmitted(h);
  }
}
