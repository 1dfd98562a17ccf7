/**
 Annex-B and AVCC framing of a bitstream.

 Annex-B separates NAL units by the start codes `00 00 01` and `00 00 00 01`; AVCC prefixes
 each with a 32-bit big-endian length.  The methods are the loops of the decoder probe and the
 encoder; the functions beside them are their reference meaning.
 */
module AnnexB {
  import opened Wrappers
  import opened Bytes

  type Nal = seq<byte>

  const START3: seq<byte> := [0, 0, 1]
  const START4: seq<byte> := [0, 0, 0, 1]

  // ----- The reference meaning of splitting: cut at every 00 00 01, trim, drop what is empty

  predicate MarkAt(s: seq<byte>, i: int)
  {
    0 <= i <= |s| - 3 && s[i] == 0 && s[i + 1] == 0 && s[i + 2] == 1
  }

  ghost predicate HasMark(s: seq<byte>) { exists i :: MarkAt(s, i) }

  /** The first mark at or after `from`, or the length of `s`. */
  function FirstMark(s: seq<byte>, from: nat): (i: nat)
    requires from <= |s|
    ensures from <= i <= |s| && (i < |s| ==> i + 3 <= |s|)
    decreases |s| - from
  {
    if from == |s| then from else if MarkAt(s, from) then from else FirstMark(s, from + 1)
  }

  lemma {:induction false} FirstMarkIsFirst(s: seq<byte>, from: nat)
    requires from <= |s|
    ensures FirstMark(s, from) < |s| ==> MarkAt(s, FirstMark(s, from))
    ensures forall j :: from <= j < FirstMark(s, from) ==> !MarkAt(s, j)
    decreases |s| - from
  {
    if from < |s| && !MarkAt(s, from) { FirstMarkIsFirst(s, from + 1); }
  }

  lemma FirstMarkIs(s: seq<byte>, from: nat, i: nat)
    requires from <= i <= |s| && (i < |s| ==> MarkAt(s, i))
    requires forall j :: from <= j < i ==> !MarkAt(s, j)
    ensures FirstMark(s, from) == i
  {
    FirstMarkIsFirst(s, from);
  }

  function Trim(s: seq<byte>): (t: seq<byte>)
  {
    if s != [] && s[|s| - 1] == 0 then Trim(s[..|s| - 1]) else s
  }

  function Kept(s: seq<byte>): seq<Nal>
  {
    if Trim(s) == [] then [] else [Trim(s)]
  }

  /** The NAL units of what follows a start code. */
  function NalsAfter(s: seq<byte>): seq<Nal>
    decreases |s|
  {
    var i := FirstMark(s, 0);
    if i == |s| then Kept(s) else Kept(s[..i]) + NalsAfter(s[i + 3..])
  }

  /** A buffer without a start code is one bare NAL unit. */
  function Split(data: seq<byte>): seq<Nal>
  {
    var i := FirstMark(data, 0);
    if i == |data| then if data == [] then [] else [data] else NalsAfter(data[i + 3..])
  }

  // ----- The splitting loop

  datatype StartCode = StartCode(at: nat, len: nat)

  /** The first start code at or after `from`: it ends in the first mark there, and takes in one
      more leading zero exactly if there is one. */
  predicate FirstCode(data: seq<byte>, from: nat, i: nat, len: nat)
  {
    && from <= i && (len == 3 || len == 4) && i + len <= |data|
    && MarkAt(data, i + len - 3)
    && (forall j :: from <= j < i + len - 3 ==> !MarkAt(data, j))
    && (len == 4 <==> from <= i + len - 4 && data[i + len - 4] == 0)
  }

  ghost predicate Found(data: seq<byte>, from: nat, r: Option<StartCode>)
  {
    && (r.None? ==> forall j :: from <= j ==> !MarkAt(data, j))
    && (r.Some? ==> FirstCode(data, from, r.value.at, r.value.len))
  }

  method FindStartCode(data: seq<byte>, from: nat) returns (r: Option<StartCode>)
    ensures Found(data, from, r)
  {
    var index := from;
    while index + 3 <= |data|
      invariant from <= index
      invariant forall j :: from <= j < index ==> !MarkAt(data, j)
      invariant from < index && MarkAt(data, index) ==> data[index - 1] != 0
    {
      if START3 <= data[index..] {
        return Some(StartCode(index, 3));
      }
      if index + 4 <= |data| && START4 <= data[index..] {
        return Some(StartCode(index, 4));
      }
      index := index + 1;
    }
    return None;
  }

  method PushTrimmedNal(out: seq<Nal>, nal: seq<byte>) returns (pushed: seq<Nal>)
    ensures pushed == out + Kept(nal)
  {
    var end := |nal|;
    assert nal[..end] == nal;
    while end > 0 && nal[end - 1] == 0
      invariant 0 <= end <= |nal|
      invariant Trim(nal) == Trim(nal[..end])
    {
      end := end - 1;
      assert nal[..end + 1][..end] == nal[..end];
    }
    pushed := if end != 0 then out + [nal[..end]] else out;
  }

  /** The same cutting by positions in one buffer, onto the units found so far. */
  function NalsOnto(out: seq<Nal>, data: seq<byte>, from: nat): seq<Nal>
    requires from <= |data|
    decreases |data| - from
  {
    var i := FirstMark(data, from);
    if i == |data| then out + Kept(data[from..]) else NalsOnto(out + Kept(data[from..i]), data, i + 3)
  }

  lemma FirstMarkShift(data: seq<byte>, from: nat)
    requires from <= |data|
    ensures FirstMark(data[from..], 0) == FirstMark(data, from) - from
  {
    var i := FirstMark(data, from);
    FirstMarkIsFirst(data, from);
    assert i < |data| ==> MarkAt(data[from..], i - from);
    assert forall j :: 0 <= j < i - from && MarkAt(data[from..], j) ==> MarkAt(data, from + j);
    FirstMarkIs(data[from..], 0, i - from);
  }

  lemma {:induction false} NalsOntoIsAppend(out: seq<Nal>, data: seq<byte>, from: nat)
    requires from <= |data|
    ensures NalsOnto(out, data, from) == out + NalsAfter(data[from..])
    decreases |data| - from
  {
    var i := FirstMark(data, from);
    FirstMarkShift(data, from);
    if i < |data| {
      NalsOntoIsAppend(out + Kept(data[from..i]), data, i + 3);
      assert data[from..][..i - from] == data[from..i];
      assert data[from..][i - from + 3..] == data[i + 3..];
      ConcatAssoc(out, Kept(data[from..i]), NalsAfter(data[i + 3..]));
    }
  }

  lemma FirstPiece(data: seq<byte>, i: nat, len: nat)
    requires FirstCode(data, 0, i, len)
    ensures Split(data) == NalsAfter(data[i + len..])
  {
    FirstMarkIs(data, 0, i + len - 3);
  }

  lemma BareNal(data: seq<byte>)
    requires forall j :: 0 <= j ==> !MarkAt(data, j)
    ensures Split(data) == if data == [] then [] else [data]
  {
    FirstMarkIs(data, 0, |data|);
  }

  lemma LastPiece(out: seq<Nal>, data: seq<byte>, from: nat)
    requires from <= |data| && forall j :: from <= j ==> !MarkAt(data, j)
    ensures NalsOnto(out, data, from) == out + Kept(data[from..])
  {
    FirstMarkIs(data, from, |data|);
  }

  /** A zero that the start code takes in would have been trimmed anyway. */
  lemma TrimTakesZero(data: seq<byte>, from: nat, i: nat)
    requires from <= i < |data| && data[i] == 0
    ensures Kept(data[from..i + 1]) == Kept(data[from..i])
  {
    var piece := data[from..i + 1];
    assert piece[..|piece| - 1] == data[from..i];
  }

  lemma NalsOntoStep(out: seq<Nal>, data: seq<byte>, from: nat, mark: nat)
    requires from <= mark < |data| && FirstMark(data, from) == mark
    ensures NalsOnto(out, data, from) == NalsOnto(out + Kept(data[from..mark]), data, mark + 3)
  {
  }

  lemma NextPiece(out: seq<Nal>, data: seq<byte>, from: nat, mark: nat, kept: seq<Nal>)
    requires from <= mark < |data| && FirstMark(data, from) == mark && Kept(data[from..mark]) == kept
    ensures NalsOnto(out, data, from) == NalsOnto(out + kept, data, mark + 3)
  {
    NalsOntoStep(out, data, from, mark);
  }

  lemma CodeEndsInFirstMark(data: seq<byte>, from: nat, i: nat, len: nat)
    requires FirstCode(data, from, i, len)
    ensures FirstMark(data, from) == i + len - 3 < |data|
    ensures Kept(data[from..i + len - 3]) == Kept(data[from..i])
  {
    FirstMarkIs(data, from, i + len - 3);
    if len == 4 { TrimTakesZero(data, from, i); }
  }

  lemma Piece(out: seq<Nal>, data: seq<byte>, from: nat, found: Option<StartCode>)
    requires from <= |data| && Found(data, from, found)
    ensures found.None? ==> NalsOnto(out, data, from) == out + Kept(data[from..])
    ensures found.Some? ==>
      var i, end := found.value.at, found.value.at + found.value.len;
      from <= i < end <= |data| && NalsOnto(out, data, from) == NalsOnto(out + Kept(data[from..i]), data, end)
  {
    if found.None? {
      LastPiece(out, data, from);
    } else {
      var i, len := found.value.at, found.value.len;
      CodeEndsInFirstMark(data, from, i, len);
      NextPiece(out, data, from, i + len - 3, Kept(data[from..i]));
    }
  }

  /** One round of the loop: the unit at `from` is pushed, and the next one starts after the code
      found, if any. */
  method Cut(out: seq<Nal>, data: seq<byte>, from: nat) returns (longer: seq<Nal>, next: Option<nat>)
    requires from <= |data|
    ensures next.None? ==> longer == NalsOnto(out, data, from)
    ensures next.Some? ==>
      from < next.value <= |data| && NalsOnto(longer, data, next.value) == NalsOnto(out, data, from)
  {
    var found := FindStartCode(data, from);
    Piece(out, data, from, found);
    if found.None? {
      longer := PushTrimmedNal(out, data[from..]);
      next := None;
    } else {
      longer := PushTrimmedNal(out, data[from..found.value.at]);
      next := Some(found.value.at + found.value.len);
    }
  }

  /** The loop of `split_annex_b`, from its first start code on. */
  method SplitFrom(data: seq<byte>, code: nat, codeLen: nat) returns (out: seq<Nal>)
    requires code + codeLen <= |data|
    ensures out == NalsAfter(data[code + codeLen..])
  {
    var next := Some(code + codeLen);
    out := [];
    NalsOntoIsAppend([], data, code + codeLen);
    ghost var all := NalsAfter(data[code + codeLen..]);
    while next.Some?
      invariant next.Some? ==> next.value <= |data| && NalsOnto(out, data, next.value) == all
      invariant next.None? ==> out == all
      decreases if next.Some? then |data| - next.value + 1 else 0
    {
      out, next := Cut(out, data, next.value);
    }
  }

  method SplitAnnexB(data: seq<byte>) returns (out: seq<Nal>)
    ensures out == Split(data)
  {
    var found := FindStartCode(data, 0);
    if found.None? {
      BareNal(data);
      return if data == [] then [] else [data];
    }
    var code, codeLen := found.value.at, found.value.len;
    FirstPiece(data, code, codeLen);
    out := SplitFrom(data, code, codeLen);
  }
}
