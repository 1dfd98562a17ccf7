/** Splitting undoes framing, and exactly when the trip through AVCC loses nothing. */
module Framing {
  import opened Wrappers
  import opened Bytes
  import opened AnnexB
  import opened Avcc

  /** What a start-code stream can carry: not empty, last byte not zero, no mark inside
      (sections 7.4.1 and B.1 of ITU-T H.264). */
  ghost predicate Framable(nal: Nal)
  {
    nal != [] && nal[|nal| - 1] != 0 && !HasMark(nal)
  }

  ghost predicate AllFramable(nals: seq<Nal>) { forall k :: 0 <= k < |nals| ==> Framable(nals[k]) }

  predicate AllShort(nals: seq<Nal>) { forall k :: 0 <= k < |nals| ==> |nals[k]| < U32 }

  // ----- Splitting distributes over start codes

  /** A start code between two byte strings always cuts, whatever they are. */
  lemma {:induction false} SplitAtMark(a: seq<byte>, b: seq<byte>)
    ensures NalsAfter(a + START3 + b) == NalsAfter(a) + NalsAfter(b)
    decreases |a|
  {
    var s := a + START3 + b;
    var i := FirstMark(a, 0);
    FirstMarkIsFirst(a, 0);
    FirstMarkBefore(a, b);
    if i == |a| {
      assert s[..i] == a && s[i + 3..] == b;
    } else {
      assert s[..i] == a[..i];
      assert s[i + 3..] == a[i + 3..] + START3 + b;
      SplitAtMark(a[i + 3..], b);
      ConcatAssoc(Kept(a[..i]), NalsAfter(a[i + 3..]), NalsAfter(b));
    }
  }

  /** No mark straddles the boundary in front of a start code. */
  lemma FirstMarkBefore(a: seq<byte>, b: seq<byte>)
    ensures FirstMark(a + START3 + b, 0) == FirstMark(a, 0)
  {
    var s := a + START3 + b;
    var i := FirstMark(a, 0);
    FirstMarkIsFirst(a, 0);
    assert i < |a| ==> MarkAt(s, i);
    assert i == |a| ==> MarkAt(s, i);
    forall j | 0 <= j < i
      ensures !MarkAt(s, j)
    {
      assert !MarkAt(a, j);
      assert j + 2 < |a| ==> s[j + 2] == a[j + 2] && s[j + 1] == a[j + 1] && s[j] == a[j];
      assert j + 2 == |a| ==> s[j + 2] == START3[0];
      assert j + 2 == |a| + 1 ==> s[j + 2] == START3[1];
    }
    FirstMarkIs(s, 0, i);
  }

  function Zeros(n: nat): (z: seq<byte>)
    ensures |z| == n && forall i :: 0 <= i < n ==> z[i] == 0
  {
    seq(n, _ => 0)
  }

  lemma {:induction false} TrimPadding(nal: seq<byte>, n: nat)
    requires nal == [] || nal[|nal| - 1] != 0
    ensures Trim(nal + Zeros(n)) == nal
  {
    if n > 0 {
      assert (nal + Zeros(n))[..|nal| + n - 1] == nal + Zeros(n - 1);
      TrimPadding(nal, n - 1);
    } else {
      assert nal + Zeros(0) == nal;
    }
  }

  lemma PaddedHasNoMark(nal: Nal, n: nat)
    requires Framable(nal)
    ensures FirstMark(nal + Zeros(n), 0) == |nal| + n
  {
    var s := nal + Zeros(n);
    forall j | 0 <= j < |s|
      ensures !MarkAt(s, j)
    {
      assert !MarkAt(nal, j);
    }
    FirstMarkIs(s, 0, |s|);
  }

  lemma PaddedNalIsItself(nal: Nal, n: nat)
    requires Framable(nal)
    ensures NalsAfter(nal + Zeros(n)) == [nal]
  {
    PaddedHasNoMark(nal, n);
    TrimPadding(nal, n);
  }

  // ----- Any start-code stream splits back into its units

  /** Units behind start codes with any number of zeros in front of each (one zero makes the
      four-byte code) and after the last. */
  function Stream(pads: seq<nat>, nals: seq<Nal>, tail: nat): seq<byte>
    requires |pads| == |nals|
  {
    if nals == [] then Zeros(tail)
    else Zeros(pads[0]) + START3 + nals[0] + Stream(pads[1..], nals[1..], tail)
  }

  lemma {:induction false} NalsAfterStream(nal: Nal, pads: seq<nat>, nals: seq<Nal>, tail: nat)
    requires |pads| == |nals| && Framable(nal) && AllFramable(nals)
    ensures NalsAfter(nal + Stream(pads, nals, tail)) == [nal] + nals
    decreases |nals|
  {
    if nals == [] {
      PaddedNalIsItself(nal, tail);
    } else {
      var rest := nals[0] + Stream(pads[1..], nals[1..], tail);
      assert nal + Stream(pads, nals, tail) == nal + Zeros(pads[0]) + START3 + rest;
      SplitAtMark(nal + Zeros(pads[0]), rest);
      PaddedNalIsItself(nal, pads[0]);
      NalsAfterStream(nals[0], pads[1..], nals[1..], tail);
      assert [nals[0]] + nals[1..] == nals;
    }
  }

  lemma ZerosHaveNoMark(n: nat)
    ensures FirstMark(Zeros(n), 0) == n
  {
    FirstMarkIs(Zeros(n), 0, n);
  }

  /** Whatever mix of three- and four-byte start codes and padding frames them, the units of a
      stream come back exactly. */
  lemma StreamSplitsBack(pads: seq<nat>, nals: seq<Nal>, tail: nat)
    requires |pads| == |nals| > 0 && AllFramable(nals)
    ensures Split(Stream(pads, nals, tail)) == nals
  {
    var rest := nals[0] + Stream(pads[1..], nals[1..], tail);
    assert Stream(pads, nals, tail) == Zeros(pads[0]) + START3 + rest;
    FirstMarkBefore(Zeros(pads[0]), rest);
    ZerosHaveNoMark(pads[0]);
    assert (Zeros(pads[0]) + START3 + rest)[pads[0] + 3..] == rest;
    NalsAfterStream(nals[0], pads[1..], nals[1..], tail);
    assert [nals[0]] + nals[1..] == nals;
    assert MarkAt(Zeros(pads[0]) + START3 + rest, pads[0]);
  }

  lemma {:induction false} CodedIsStream(nals: seq<Nal>)
    ensures Coded(nals) == Stream(seq(|nals|, _ => 1), nals, 0)
  {
    if nals != [] {
      CodedIsStream(nals[1..]);
      assert seq(|nals|, _ => 1)[1..] == seq(|nals[1..]|, _ => 1);
      assert START4 == Zeros(1) + START3;
    }
  }

  lemma CodedSplitsBack(nals: seq<Nal>)
    requires AllFramable(nals)
    ensures Split(Coded(nals)) == nals
  {
    CodedIsStream(nals);
    if nals == [] {
      assert Coded(nals) == [];
    } else {
      StreamSplitsBack(seq(|nals|, _ => 1), nals, 0);
    }
  }

  // ----- What splitting produces can always be framed again

  lemma {:induction false} TrimEndsNonzero(s: seq<byte>)
    ensures Trim(s) <= s && (Trim(s) != [] ==> Trim(s)[|Trim(s)| - 1] != 0)
  {
    if s != [] && s[|s| - 1] == 0 { TrimEndsNonzero(s[..|s| - 1]); }
  }

  lemma KeptIsFramable(s: seq<byte>)
    requires !HasMark(s)
    ensures AllFramable(Kept(s)) && forall k :: 0 <= k < |Kept(s)| ==> |Kept(s)[k]| <= |s|
  {
    TrimEndsNonzero(s);
    assert forall j :: MarkAt(Trim(s), j) ==> MarkAt(s, j);
  }

  lemma {:induction false} NalsAfterAreFramable(s: seq<byte>)
    ensures AllFramable(NalsAfter(s)) && forall k :: 0 <= k < |NalsAfter(s)| ==> |NalsAfter(s)[k]| <= |s|
    decreases |s|
  {
    var i := FirstMark(s, 0);
    FirstMarkIsFirst(s, 0);
    assert forall j :: MarkAt(s[..i], j) ==> MarkAt(s, j);
    assert !HasMark(s[..i]);
    KeptIsFramable(s[..i]);
    if i < |s| {
      NalsAfterAreFramable(s[i + 3..]);
    } else {
      assert s[..i] == s;
    }
  }

  /** Every unit split out of a buffer that holds a start code can be framed again. */
  lemma SplitIsFramable(data: seq<byte>)
    requires HasMark(data)
    ensures AllFramable(Split(data)) && forall k :: 0 <= k < |Split(data)| ==> |Split(data)[k]| <= |data|
  {
    FirstMarkIsFirst(data, 0);
    NalsAfterAreFramable(data[if FirstMark(data, 0) == |data| then |data| else FirstMark(data, 0) + 3..]);
  }

  // ----- Through AVCC and back

  lemma ReadStep(nal: Nal, rest: seq<byte>)
    requires 0 < |nal| < U32
    ensures Read(Be32(|nal|) + nal + rest) == ([nal] + Read(rest).0, Read(rest).1)
  {
    var input := Be32(|nal|) + nal + rest;
    assert input[..4] == Be32(|nal|) && input[4..4 + |nal|] == nal && input[4 + |nal|..] == rest;
    Be32RoundTrip(|nal|);
  }

  lemma {:induction false} ReadUndoesFramed(nals: seq<Nal>)
    requires AllShort(nals) && forall k :: 0 <= k < |nals| ==> nals[k] != []
    ensures Read(Framed(nals)) == (nals, None)
  {
    if nals != [] {
      var rest := Framed(nals[1..]);
      FramedStep(nals);
      ReadUndoesFramed(nals[1..]);
      ReadStep(nals[0], rest);
      assert [nals[0]] + nals[1..] == nals;
    }
  }

  lemma FramedStep(nals: seq<Nal>)
    requires nals != [] && |nals[0]| < U32
    ensures Framed(nals) == Be32(|nals[0]|) + nals[0] + Framed(nals[1..])
  {
    assert |nals[0]| % U32 == |nals[0]|;
  }

  lemma {:induction false} ReadUnitsAreShort(input: seq<byte>)
    ensures AllShort(Read(input).0)
    decreases |input|
  {
    if |input| >= 4 && |input| - 4 >= FromBe32(input[..4]) {
      ReadUnitsAreShort(input[4 + FromBe32(input[..4])..]);
    }
  }

  lemma MarkWithZero(s: seq<byte>, j: int)
    ensures MarkAt(s + [0], j) <==> MarkAt(s, j)
  {
    var z := s + [0];
    assert z[|s|] == 0;
    assert 0 <= j <= |s| - 3 ==> z[j] == s[j] && z[j + 1] == s[j + 1] && z[j + 2] == s[j + 2];
  }

  lemma FirstMarkWithZero(s: seq<byte>)
    ensures FirstMark(s + [0], 0) == if FirstMark(s, 0) < |s| then FirstMark(s, 0) else |s| + 1
  {
    var i := FirstMark(s, 0);
    FirstMarkIsFirst(s, 0);
    forall j
      ensures MarkAt(s + [0], j) <==> MarkAt(s, j)
    {
      MarkWithZero(s, j);
    }
    FirstMarkIs(s + [0], 0, if i < |s| then i else |s| + 1);
  }

  lemma KeptWithZero(s: seq<byte>)
    ensures Kept(s + [0]) == Kept(s)
  {
    assert (s + [0])[..|s|] == s;
  }

  lemma {:induction false} ZeroBeforeCode(s: seq<byte>)
    ensures NalsAfter(s + [0]) == NalsAfter(s)
    decreases |s|
  {
    var i := FirstMark(s, 0);
    FirstMarkWithZero(s);
    if i < |s| {
      assert (s + [0])[..i] == s[..i] && (s + [0])[i + 3..] == s[i + 3..] + [0];
      ZeroBeforeCode(s[i + 3..]);
    } else {
      KeptWithZero(s);
    }
  }

  lemma {:induction false} UnitsNeverMerge(nal: Nal, nals: seq<Nal>)
    requires |nal| < U32 && AllShort(nals)
    ensures AllShort(NalsAfter(nal + Coded(nals)))
    decreases |nals|
  {
    NalsAfterAreFramable(nal);
    if nals == [] {
      assert nal + Coded(nals) == nal;
    } else {
      var rest := nals[0] + Coded(nals[1..]);
      assert nal + Coded(nals) == nal + [0] + START3 + rest;
      SplitAtMark(nal + [0], rest);
      ZeroBeforeCode(nal);
      UnitsNeverMerge(nals[0], nals[1..]);
    }
  }

  lemma SplitCoded(nals: seq<Nal>)
    requires nals != []
    ensures HasMark(Coded(nals)) && Split(Coded(nals)) == NalsAfter(nals[0] + Coded(nals[1..]))
  {
    var rest := nals[0] + Coded(nals[1..]);
    assert Coded(nals) == [0] + START3 + rest;
    assert MarkAt(Coded(nals), 1);
    FirstMarkBefore([0], rest);
    FirstMarkIs([0], 0, 1);
    assert ([0] + START3 + rest)[1 + 3..] == rest;
  }

  /** Units written as AVCC, converted to Annex-B and split come back exactly if every one of
      them can be framed and is shorter than 2^32 bytes. */
  lemma RoundTripIff(nals: seq<Nal>)
    ensures (Read(Framed(nals)).1.None? && Split(Coded(Read(Framed(nals)).0)) == nals)
       <==> (AllFramable(nals) && AllShort(nals))
  {
    if AllFramable(nals) && AllShort(nals) {
      ReadUndoesFramed(nals);
      CodedSplitsBack(nals);
    }
    var read := Read(Framed(nals)).0;
    if Split(Coded(read)) == nals {
      ReadUnitsAreShort(Framed(nals));
      if read != [] {
        SplitCoded(read);
        SplitIsFramable(Coded(read));
        UnitsNeverMerge(read[0], read[1..]);
      }
    }
  }

  /** The truncated length loses a unit that is otherwise fine. */
  lemma LongUnitIsLost()
    ensures var nals := [seq(U32, _ => 1)];
      AllFramable(nals) && !(Read(Framed(nals)).1.None? && Split(Coded(Read(Framed(nals)).0)) == nals)
  {
    var nals: seq<Nal> := [seq(U32, _ => 1)];
    assert |nals[0]| == U32 && nals[0][U32 - 1] == 1;
    RoundTripIff(nals);
  }

  /** Splitting a capture, coding its units and splitting again changes nothing, and AVCC carries
      the units in between exactly if none has 2^32 bytes or more. */
  lemma SplitReframeSplit(data: seq<byte>)
    requires HasMark(data)
    ensures Split(Coded(Split(data))) == Split(data)
    ensures Read(Framed(Split(data))) == (Split(data), None) <==> AllShort(Split(data))
  {
    SplitIsFramable(data);
    CodedSplitsBack(Split(data));
    ReadUnitsAreShort(Framed(Split(data)));
    if AllShort(Split(data)) { ReadUndoesFramed(Split(data)); }
  }

  // ----- Where reading AVCC stops

  /** The units that are not empty. */
  function Nonempty(nals: seq<Nal>): seq<Nal>
  {
    if nals == [] then [] else (if nals[0] == [] then [] else [nals[0]]) + Nonempty(nals[1..])
  }

  lemma ReadOne(nal: Nal, rest: seq<byte>)
    requires |nal| < U32
    ensures Read(Be32(|nal|) + nal + rest) == ((if nal == [] then [] else [nal]) + Read(rest).0, Read(rest).1)
  {
    if nal == [] {
      var input := Be32(0) + nal + rest;
      Be32RoundTrip(0);
      assert input[..4] == Be32(0) && input[4..] == rest;
      assert [] + Read(rest).0 == Read(rest).0;
    } else {
      ReadStep(nal, rest);
    }
  }

  /** Reading what was written gives the units that are not empty, and then stops as what follows
      does: at its end, in the middle of a length, or at a length that promises more than there is. */
  lemma {:induction false} ReadStopsAt(nals: seq<Nal>, tail: seq<byte>)
    requires AllShort(nals)
    ensures Read(Framed(nals) + tail) == (Nonempty(nals) + Read(tail).0, Read(tail).1)
  {
    if nals == [] {
      assert Framed(nals) + tail == tail && [] + Read(tail).0 == Read(tail).0;
    } else {
      FramedStep(nals);
      var rest := Framed(nals[1..]) + tail;
      assert Framed(nals) + tail == Be32(|nals[0]|) + nals[0] + rest;
      ReadOne(nals[0], rest);
      ReadStopsAt(nals[1..], tail);
      ConcatAssoc(if nals[0] == [] then [] else [nals[0]], Nonempty(nals[1..]), Read(tail).0);
    }
  }

  lemma TruncatedTails(tail: seq<byte>, promised: nat, body: seq<byte>)
    requires 0 < |tail| < 4 && |body| < promised < U32
    ensures Read(tail) == ([], Some(EndsMidPrefix)) && Read(Be32(promised) + body) == ([], Some(LengthExceedsBuffer))
  {
    Be32RoundTrip(promised);
    assert (Be32(promised) + body)[..4] == Be32(promised);
  }
}
