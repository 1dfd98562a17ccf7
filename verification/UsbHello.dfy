/** The helper's handshake: what it encodes and what the Deck decodes. */
module UsbHello {
  import opened Wrappers
  import opened Bytes

  const MAX_INTERFACES: nat := 16
  const MAX_HID_REPORT_DESCRIPTOR_BYTES: nat := 4096

  type u16 = n: int | 0 <= n < 0x1_0000

  datatype Descriptor = Descriptor(face: byte, bytes: seq<byte>)

  datatype Hello = Hello(
    vendor: u16, product: u16, bcd: u16, deviceClass: byte, speed: byte, descriptors: seq<Descriptor>)

  function Le16(n: u16): seq<byte> { [n % 256, n / 256] }

  function FromLe16(low: byte, high: byte): u16 { low as int + 256 * high }

  lemma Le16Inverts(low: byte, high: byte)
    ensures Le16(FromLe16(low, high)) == [low, high]
  {
  }

  // ----- The helper's side

  predicate Encodable(h: Hello)
  {
    |h.descriptors| <= 255 && forall i :: 0 <= i < |h.descriptors| ==> |h.descriptors[i].bytes| <= 0xFFFF
  }

  function EncodeAll(descriptors: seq<Descriptor>): seq<byte>
    requires forall i :: 0 <= i < |descriptors| ==> |descriptors[i].bytes| <= 0xFFFF
  {
    if descriptors == [] then []
    else [descriptors[0].face] + Le16(|descriptors[0].bytes|) + descriptors[0].bytes + EncodeAll(descriptors[1..])
  }

  function Identity(h: Hello): (s: seq<byte>)
    ensures |s| == 8
  {
    Le16(h.vendor) + Le16(h.product) + Le16(h.bcd) + [h.deviceClass, h.speed]
  }

  function Encode(h: Hello): Option<seq<byte>>
  {
    if Encodable(h) then Some(Identity(h) + [|h.descriptors|] + EncodeAll(h.descriptors)) else None
  }

  // ----- The Deck's side

  /** The descriptor at the front of a trailer, within the Deck's bounds, and what follows it. */
  function Head(rest: seq<byte>): (r: Option<(Descriptor, seq<byte>)>)
    ensures r.Some? ==> |r.value.1| < |rest|
  {
    if |rest| < 3 then None
    else
      var length := FromLe16(rest[1], rest[2]);
      if length > MAX_HID_REPORT_DESCRIPTOR_BYTES || |rest| < 3 + length then None
      else Some((Descriptor(rest[0], rest[3..3 + length]), rest[3 + length..]))
  }

  function Prepend(front: seq<Descriptor>, tail: Option<seq<Descriptor>>): Option<seq<Descriptor>>
  {
    if tail.None? then None else Some(front + tail.value)
  }

  /** The descriptors of a trailer that holds exactly `count` of them. */
  function DecodeAll(count: nat, rest: seq<byte>): Option<seq<Descriptor>>
  {
    if count == 0 then if rest == [] then Some([]) else None
    else
      match Head(rest)
      case None => None
      case Some((descriptor, tail)) => Prepend([descriptor], DecodeAll(count - 1, tail))
  }

  function Decoded(payload: seq<byte>): Option<Hello>
  {
    if |payload| < 8 || payload[7] > 2 then None
    else
      var trailer :=
        if |payload| == 8 then Some([])
        else if payload[8] > MAX_INTERFACES then None
        else DecodeAll(payload[8], payload[9..]);
      if trailer.None? then None
      else
        Some(Hello(FromLe16(payload[0], payload[1]), FromLe16(payload[2], payload[3]),
                   FromLe16(payload[4], payload[5]), payload[6], payload[7], trailer.value))
  }

  lemma DecodeStep(front: seq<Descriptor>, count: nat, rest: seq<byte>)
    requires count > 0
    ensures Prepend(front, DecodeAll(count, rest)) ==
      match Head(rest)
      case None => None
      case Some((descriptor, tail)) => Prepend(front + [descriptor], DecodeAll(count - 1, tail))
  {
    if Head(rest).Some? {
      var (descriptor, tail) := Head(rest).value;
      var more := DecodeAll(count - 1, tail);
      if more.Some? { ConcatAssoc(front, [descriptor], more.value); }
    }
  }

  lemma PrependNothing(tail: Option<seq<Descriptor>>)
    ensures Prepend([], tail) == tail
  {
    if tail.Some? { assert [] + tail.value == tail.value; }
  }

  /** One round of the loop in `decode_hello`. */
  method TakeDescriptor(rest: seq<byte>) returns (r: Option<(Descriptor, seq<byte>)>)
    ensures r == Head(rest)
  {
    if |rest| == 0 { return None; }
    var face, after := rest[0], rest[1..];
    if |after| < 2 { return None; }
    var length := FromLe16(after[0], after[1]);
    if length > MAX_HID_REPORT_DESCRIPTOR_BYTES { return None; }
    if |after| < 2 + length { return None; }
    SliceOfSlice(rest, 1, 2, 2 + length);
    assert rest[3 + length..] == after[2 + length..];
    return Some((Descriptor(face, after[2..2 + length]), after[2 + length..]));
  }

  method DecodeTrailer(count: nat, trailer: seq<byte>) returns (r: Option<seq<Descriptor>>)
    ensures r == DecodeAll(count, trailer)
  {
    var descriptors, rest := [], trailer;
    PrependNothing(DecodeAll(count, trailer));
    for k := 0 to count
      invariant DecodeAll(count, trailer) == Prepend(descriptors, DecodeAll(count - k, rest))
    {
      DecodeStep(descriptors, count - k, rest);
      var head := TakeDescriptor(rest);
      if head.None? { return None; }
      descriptors, rest := descriptors + [head.value.0], head.value.1;
    }
    assert descriptors + [] == descriptors;
    return if rest != [] then None else Some(descriptors);
  }

  method DecodeHello(payload: seq<byte>) returns (r: Option<Hello>)
    ensures r == Decoded(payload)
  {
    if |payload| < 8 { return None; }
    if payload[7] > 2 { return None; }
    var descriptors: seq<Descriptor> := [];
    if |payload| > 8 {
      if payload[8] > MAX_INTERFACES { return None; }
      var trailer := DecodeTrailer(payload[8], payload[9..]);
      if trailer.None? { return None; }
      descriptors := trailer.value;
    }
    return Some(Hello(FromLe16(payload[0], payload[1]), FromLe16(payload[2], payload[3]),
                      FromLe16(payload[4], payload[5]), payload[6], payload[7], descriptors));
  }

  // ----- The two sides together

  /** What the Deck accepts of what the helper can say. */
  predicate Acceptable(h: Hello)
  {
    h.speed <= 2 && |h.descriptors| <= MAX_INTERFACES && AllBounded(h.descriptors)
  }

  predicate AllBounded(descriptors: seq<Descriptor>)
  {
    forall i :: 0 <= i < |descriptors| ==> |descriptors[i].bytes| <= MAX_HID_REPORT_DESCRIPTOR_BYTES
  }

  lemma WireOfOne(d: Descriptor, more: seq<byte>)
    requires |d.bytes| <= 0xFFFF
    ensures var wire, n := [d.face] + Le16(|d.bytes|) + d.bytes + more, |d.bytes|;
      && |wire| >= 3 + n && wire[0] == d.face && FromLe16(wire[1], wire[2]) == n
      && wire[3..3 + n] == d.bytes && wire[3 + n..] == more
  {
  }

  lemma HeadOfWire(d: Descriptor, more: seq<byte>)
    requires |d.bytes| <= 0xFFFF
    ensures Head([d.face] + Le16(|d.bytes|) + d.bytes + more)
         == if |d.bytes| <= MAX_HID_REPORT_DESCRIPTOR_BYTES then Some((d, more)) else None
  {
    WireOfOne(d, more);
  }

  lemma AllBoundedStep(descriptors: seq<Descriptor>)
    requires descriptors != []
    ensures AllBounded(descriptors) <==>
      |descriptors[0].bytes| <= MAX_HID_REPORT_DESCRIPTOR_BYTES && AllBounded(descriptors[1..])
  {
    assert forall i :: 1 <= i < |descriptors| ==> descriptors[i] == descriptors[1..][i - 1];
  }

  lemma {:induction false} DecodeUndoesEncodeAll(descriptors: seq<Descriptor>)
    requires forall i :: 0 <= i < |descriptors| ==> |descriptors[i].bytes| <= 0xFFFF
    ensures DecodeAll(|descriptors|, EncodeAll(descriptors))
         == if AllBounded(descriptors) then Some(descriptors) else None
  {
    if descriptors != [] {
      HeadOfWire(descriptors[0], EncodeAll(descriptors[1..]));
      DecodeUndoesEncodeAll(descriptors[1..]);
      AllBoundedStep(descriptors);
      assert [descriptors[0]] + descriptors[1..] == descriptors;
    }
  }

  lemma WireOfHead(rest: seq<byte>)
    requires Head(rest).Some?
    ensures var (d, tail) := Head(rest).value;
      |d.bytes| <= MAX_HID_REPORT_DESCRIPTOR_BYTES && rest == [d.face] + Le16(|d.bytes|) + d.bytes + tail
  {
    Le16Inverts(rest[1], rest[2]);
  }

  lemma {:induction false} EncodeUndoesDecodeAll(count: nat, rest: seq<byte>)
    requires DecodeAll(count, rest).Some?
    ensures var ds := DecodeAll(count, rest).value;
      |ds| == count && AllBounded(ds) && EncodeAll(ds) == rest
  {
    if count > 0 {
      var (d, tail) := Head(rest).value;
      EncodeUndoesDecodeAll(count - 1, tail);
      var ds := DecodeAll(count, rest).value;
      assert ds[0] == d && ds[1..] == DecodeAll(count - 1, tail).value;
      AllBoundedStep(ds);
      WireOfHead(rest);
    }
  }

  lemma IdentityBytes(h: Hello, tail: seq<byte>)
    ensures var p := Identity(h) + tail;
      && FromLe16(p[0], p[1]) == h.vendor && FromLe16(p[2], p[3]) == h.product && FromLe16(p[4], p[5]) == h.bcd
      && p[6] == h.deviceClass && p[7] == h.speed && p[8..] == tail
  {
  }

  /** The Deck understands exactly the handshakes within its bounds, and understands them as meant. */
  lemma HelloRoundTrip(h: Hello)
    requires Encodable(h)
    ensures Decoded(Encode(h).value) == if Acceptable(h) then Some(h) else None
  {
    var trailer := [|h.descriptors|] + EncodeAll(h.descriptors);
    var p := Identity(h) + trailer;
    EncodeIs(h);
    IdentityBytes(h, trailer);
    assert p[8] == trailer[0] == |h.descriptors| && p[9..] == trailer[1..] == EncodeAll(h.descriptors);
    DecodeUndoesEncodeAll(h.descriptors);
  }

  lemma IdentityOf(p: seq<byte>, descriptors: seq<Descriptor>)
    requires |p| >= 8
    ensures var h := Hello(FromLe16(p[0], p[1]), FromLe16(p[2], p[3]), FromLe16(p[4], p[5]), p[6], p[7], descriptors);
      p == Identity(h) + p[8..]
  {
    Le16Inverts(p[0], p[1]);
    Le16Inverts(p[2], p[3]);
    Le16Inverts(p[4], p[5]);
    assert p[..8] == [p[0], p[1]] + [p[2], p[3]] + [p[4], p[5]] + [p[6], p[7]];
    assert p == p[..8] + p[8..];
  }

  lemma EncodeIs(h: Hello)
    requires Encodable(h)
    ensures Encode(h) == Some(Identity(h) + ([|h.descriptors|] + EncodeAll(h.descriptors)))
  {
    ConcatAssoc(Identity(h), [|h.descriptors|], EncodeAll(h.descriptors));
  }

  /** Nothing else decodes: a payload the Deck accepts is the encoding of what it understood, or
      the bare identity an older helper sends. */
  lemma DecodedIsEncoded(p: seq<byte>)
    requires Decoded(p).Some?
    ensures var h := Decoded(p).value;
      Acceptable(h) && (Encode(h) == Some(p) || (h.descriptors == [] && p == Identity(h)))
  {
    var h := Decoded(p).value;
    IdentityOf(p, h.descriptors);
    if |p| > 8 {
      EncodeUndoesDecodeAll(p[8], p[9..]);
      assert p[8..] == [p[8]] + p[9..];
      EncodeIs(h);
    } else {
      assert p[8..] == [] && Identity(h) + [] == Identity(h);
    }
  }
}
