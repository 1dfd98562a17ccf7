/** Grouping the NAL units of a capture into access units and building decoder samples. */
module AccessUnits {
  import opened Wrappers
  import opened Bytes
  import opened AnnexB
  import opened Avcc
  import opened Framing

  datatype Codec = H264 | H265

  datatype Kind = Slice | Keyframe | Vps | Sps | Pps | Other

  function Classify(codec: Codec, nal: Nal): Kind
  {
    if nal == [] then Other
    else match codec
      case H264 =>
        var t := nal[0] % 32;
        if t == 1 then Slice else if t == 5 then Keyframe
        else if t == 7 then Sps else if t == 8 then Pps else Other
      case H265 =>
        var t := nal[0] / 2 % 64;
        if t == 32 then Vps else if t == 33 then Sps else if t == 34 then Pps
        else if 16 <= t <= 21 then Keyframe else if t <= 31 then Slice else Other
  }

  /** The kinds of Table 7-1 of ITU-T H.264, by the type in a header byte
      `forbidden_zero_bit nal_ref_idc(2) nal_unit_type(5)`; whatever the other bits and the payload. */
  lemma H264Kinds(forbidden: nat, refIdc: nat, unitType: nat, payload: seq<byte>)
    requires forbidden <= 1 && refIdc <= 3 && unitType <= 31
    ensures Classify(H264, [128 * forbidden + 32 * refIdc + unitType] + payload) ==
      match unitType case 1 => Slice case 5 => Keyframe case 7 => Sps case 8 => Pps case _ => Other
  {
  }

  /** The kinds of Table 7-1 of ITU-T H.265, by the type in a header
      `forbidden_zero_bit nal_unit_type(6) nuh_layer_id(6) nuh_temporal_id_plus1(3)`. */
  lemma H265Kinds(forbidden: nat, unitType: nat, layerBit: nat, payload: seq<byte>)
    requires forbidden <= 1 && unitType <= 63 && layerBit <= 1
    ensures Classify(H265, [128 * forbidden + 2 * unitType + layerBit] + payload) ==
      if 16 <= unitType <= 21 then Keyframe else if unitType <= 31 then Slice
      else match unitType case 32 => Vps case 33 => Sps case 34 => Pps case _ => Other
  {
    assert (128 * forbidden + 2 * unitType + layerBit) / 2 == 64 * forbidden + unitType;
  }

  predicate IsPicture(codec: Codec, nal: Nal)
  {
    Classify(codec, nal).Slice? || Classify(codec, nal).Keyframe?
  }

  predicate NoPicture(codec: Codec, nals: seq<Nal>)
  {
    forall i :: 0 <= i < |nals| ==> !IsPicture(codec, nals[i])
  }

  // ----- Grouping

  datatype AccessUnit = AccessUnit(nals: seq<Nal>, isKeyframe: bool)

  /** Exactly one picture, in last place, and the flag says whether it is a keyframe. */
  predicate WellFormed(codec: Codec, unit: AccessUnit)
  {
    && unit.nals != []
    && IsPicture(codec, Picture(unit))
    && NoPicture(codec, unit.nals[..|unit.nals| - 1])
    && (unit.isKeyframe <==> Classify(codec, Picture(unit)).Keyframe?)
  }

  function Picture(unit: AccessUnit): Nal
  {
    if unit.nals == [] then [] else unit.nals[|unit.nals| - 1]
  }

  function AllNals(units: seq<AccessUnit>): seq<Nal>
  {
    if units == [] then [] else units[0].nals + AllNals(units[1..])
  }

  /** The units partition the list up to a leftover without pictures. */
  predicate Partition(codec: Codec, nals: seq<Nal>, units: seq<AccessUnit>, leftover: seq<Nal>)
  {
    && AllNals(units) + leftover == nals
    && NoPicture(codec, leftover)
    && forall k :: 0 <= k < |units| ==> WellFormed(codec, units[k])
  }

  lemma {:induction false} AllNalsAppend(units: seq<AccessUnit>, unit: AccessUnit)
    ensures AllNals(units + [unit]) == AllNals(units) + unit.nals
  {
    if units == [] {
      assert units + [unit] == [unit];
      assert AllNals([unit]) == unit.nals + AllNals([]);
    } else {
      assert (units + [unit])[1..] == units[1..] + [unit];
      AllNalsAppend(units[1..], unit);
    }
  }

  lemma ClosePartition(codec: Codec, nals: seq<Nal>, units: seq<AccessUnit>, pending: seq<Nal>, nal: Nal)
    requires Partition(codec, nals, units, pending) && IsPicture(codec, nal)
    ensures Partition(codec, nals + [nal],
                      units + [AccessUnit(pending + [nal], Classify(codec, nal).Keyframe?)], [])
  {
    var unit := AccessUnit(pending + [nal], Classify(codec, nal).Keyframe?);
    assert unit.nals[..|unit.nals| - 1] == pending;
    AllNalsAppend(units, unit);
  }

  lemma ExtendPartition(codec: Codec, nals: seq<Nal>, units: seq<AccessUnit>, pending: seq<Nal>, nal: Nal)
    requires Partition(codec, nals, units, pending) && !IsPicture(codec, nal)
    ensures Partition(codec, nals + [nal], units, pending + [nal])
  {
  }

  method GroupAccessUnits(nals: seq<Nal>, codec: Codec) returns (units: seq<AccessUnit>)
    ensures exists leftover :: Partition(codec, nals, units, leftover)
  {
    units := [];
    var pending: seq<Nal> := [];
    for k := 0 to |nals|
      invariant Partition(codec, nals[..k], units, pending)
    {
      assert nals[..k + 1] == nals[..k] + [nals[k]];
      if IsPicture(codec, nals[k]) {
        ClosePartition(codec, nals[..k], units, pending, nals[k]);
      } else {
        ExtendPartition(codec, nals[..k], units, pending, nals[k]);
      }
      pending := pending + [nals[k]];
      match Classify(codec, nals[k]) {
        case Keyframe =>
          units := units + [AccessUnit(pending, true)];
          pending := [];
        case Slice =>
          units := units + [AccessUnit(pending, false)];
          pending := [];
        case _ =>
      }
    }
    assert nals[..|nals|] == nals;
  }

  lemma TailPartition(codec: Codec, nals: seq<Nal>, units: seq<AccessUnit>, leftover: seq<Nal>)
    requires Partition(codec, nals, units, leftover) && units != []
    ensures |units[0].nals| <= |nals| && nals[..|units[0].nals|] == units[0].nals
    ensures Partition(codec, nals[|units[0].nals|..], units[1..], leftover)
  {
    assert nals == units[0].nals + (AllNals(units[1..]) + leftover);
  }

  /** The first unit ends at the first picture of the list. */
  lemma FirstUnitEndsAtFirstPicture(codec: Codec, nals: seq<Nal>, units: seq<AccessUnit>, leftover: seq<Nal>)
    requires Partition(codec, nals, units, leftover) && units != []
    ensures var n := |units[0].nals|;
      && 0 < n <= |nals| && IsPicture(codec, nals[n - 1])
      && forall i :: 0 <= i < n - 1 ==> !IsPicture(codec, nals[i])
  {
    TailPartition(codec, nals, units, leftover);
    var n := |units[0].nals|;
    assert forall i :: 0 <= i < n ==> nals[i] == nals[..n][i];
    assert forall i :: 0 <= i < n - 1 ==> nals[i] == units[0].nals[..n - 1][i];
  }

  lemma NoUnitsIffNoPicture(codec: Codec, nals: seq<Nal>, units: seq<AccessUnit>, leftover: seq<Nal>)
    requires Partition(codec, nals, units, leftover)
    ensures units == [] <==> NoPicture(codec, nals)
    ensures units == [] ==> nals == leftover
  {
    if units == [] {
      assert nals == leftover;
    } else {
      FirstUnitEndsAtFirstPicture(codec, nals, units, leftover);
    }
  }

  /** There is only one such partition, so this is what grouping means. */
  lemma {:induction false} PartitionIsUnique(codec: Codec, nals: seq<Nal>, a: seq<AccessUnit>, x: seq<Nal>,
                                             b: seq<AccessUnit>, y: seq<Nal>)
    requires Partition(codec, nals, a, x) && Partition(codec, nals, b, y)
    ensures a == b && x == y
    decreases |a|
  {
    NoUnitsIffNoPicture(codec, nals, a, x);
    NoUnitsIffNoPicture(codec, nals, b, y);
    if a != [] {
      FirstUnitEndsAtFirstPicture(codec, nals, a, x);
      FirstUnitEndsAtFirstPicture(codec, nals, b, y);
      assert |a[0].nals| == |b[0].nals|;
      TailPartition(codec, nals, a, x);
      TailPartition(codec, nals, b, y);
      assert a[0] == b[0];
      PartitionIsUnique(codec, nals[|a[0].nals|..], a[1..], x, b[1..], y);
      assert a == [a[0]] + a[1..] && b == [b[0]] + b[1..];
    }
  }

  // ----- Parameter sets

  datatype ParameterSets = ParameterSets(vps: Option<Nal>, sps: Option<Nal>, pps: Option<Nal>)

  predicate IsComplete(sets: ParameterSets, codec: Codec)
  {
    match codec
    case H264 => sets.sps.Some? && sets.pps.Some?
    case H265 => sets.vps.Some? && sets.sps.Some? && sets.pps.Some?
  }

  /** The last unit of a kind, if there is one. */
  predicate IsLatest(codec: Codec, nals: seq<Nal>, kind: Kind, nal: Option<Nal>)
  {
    match nal
    case None => forall i :: 0 <= i < |nals| ==> Classify(codec, nals[i]) != kind
    case Some(n) =>
      exists i :: 0 <= i < |nals| && nals[i] == n && Classify(codec, n) == kind
        && forall j :: i < j < |nals| ==> Classify(codec, nals[j]) != kind
  }

  predicate AreLatest(codec: Codec, nals: seq<Nal>, sets: ParameterSets)
  {
    IsLatest(codec, nals, Vps, sets.vps) && IsLatest(codec, nals, Sps, sets.sps) && IsLatest(codec, nals, Pps, sets.pps)
  }

  lemma ExtendLatest(codec: Codec, nals: seq<Nal>, kind: Kind, nal: Option<Nal>, next: Nal)
    requires IsLatest(codec, nals, kind, nal)
    ensures IsLatest(codec, nals + [next], kind, if Classify(codec, next) == kind then Some(next) else nal)
  {
    var all := nals + [next];
    if Classify(codec, next) == kind {
      assert all[|nals|] == next;
    } else if nal.Some? {
      var i :| 0 <= i < |nals| && nals[i] == nal.value && Classify(codec, nal.value) == kind
        && forall j :: i < j < |nals| ==> Classify(codec, nals[j]) != kind;
      assert all[i] == nal.value;
    }
  }

  method LatestParameterSets(nals: seq<Nal>, codec: Codec) returns (sets: ParameterSets)
    ensures AreLatest(codec, nals, sets)
  {
    sets := ParameterSets(None, None, None);
    for k := 0 to |nals|
      invariant AreLatest(codec, nals[..k], sets)
    {
      assert nals[..k + 1] == nals[..k] + [nals[k]];
      ExtendLatest(codec, nals[..k], Vps, sets.vps, nals[k]);
      ExtendLatest(codec, nals[..k], Sps, sets.sps, nals[k]);
      ExtendLatest(codec, nals[..k], Pps, sets.pps, nals[k]);
      match Classify(codec, nals[k]) {
        case Vps => sets := sets.(vps := Some(nals[k]));
        case Sps => sets := sets.(sps := Some(nals[k]));
        case Pps => sets := sets.(pps := Some(nals[k]));
        case _ =>
      }
    }
    assert nals[..|nals|] == nals;
  }

  predicate Holds(codec: Codec, nals: seq<Nal>, kind: Kind)
  {
    exists i :: 0 <= i < |nals| && Classify(codec, nals[i]) == kind
  }

  /** The sets are complete exactly if the stream holds each kind its codec needs. */
  lemma CompleteIff(codec: Codec, nals: seq<Nal>, sets: ParameterSets)
    requires AreLatest(codec, nals, sets)
    ensures IsComplete(sets, codec) <==>
      (codec.H265? ==> Holds(codec, nals, Vps)) && Holds(codec, nals, Sps) && Holds(codec, nals, Pps)
  {
  }

  // ----- Samples

  function Present(nal: Option<Nal>): seq<Nal>
  {
    if nal.Some? then [nal.value] else []
  }

  function Pictures(codec: Codec, nals: seq<Nal>): seq<Nal>
  {
    if nals == [] then []
    else (if IsPicture(codec, nals[0]) then [nals[0]] else []) + Pictures(codec, nals[1..])
  }

  /** The parameter sets a unit's sample starts with. */
  function SampleHead(unit: AccessUnit, sets: ParameterSets, codec: Codec): seq<Nal>
  {
    if unit.isKeyframe
    then (if codec.H265? then Present(sets.vps) else []) + Present(sets.sps) + Present(sets.pps)
    else []
  }

  /** What a sample carries: the parameter sets before a keyframe, then the unit's pictures. */
  function SampleNals(unit: AccessUnit, sets: ParameterSets, codec: Codec): seq<Nal>
  {
    SampleHead(unit, sets, codec) + Pictures(codec, unit.nals)
  }

  method ParameterSetsAhead(unit: AccessUnit, sets: ParameterSets, codec: Codec) returns (nals: seq<Nal>)
    ensures nals == SampleHead(unit, sets, codec)
  {
    nals := [];
    if unit.isKeyframe {
      if codec.H265? && sets.vps.Some? { nals := nals + [sets.vps.value]; }
      if sets.sps.Some? { nals := nals + [sets.sps.value]; }
      if sets.pps.Some? { nals := nals + [sets.pps.value]; }
    }
  }

  method AccessUnitSampleBytes(unit: AccessUnit, sets: ParameterSets, codec: Codec) returns (sample: seq<byte>)
    ensures sample == Framed(SampleNals(unit, sets, codec))
  {
    var nals := ParameterSetsAhead(unit, sets, codec);
    ghost var head := nals;
    for k := 0 to |unit.nals|
      invariant nals == head + Pictures(codec, unit.nals[..k])
    {
      PicturesStep(codec, unit.nals, k);
      if IsPicture(codec, unit.nals[k]) {
        nals := nals + [unit.nals[k]];
      }
    }
    assert unit.nals[..|unit.nals|] == unit.nals;
    sample := NalsToAvcc(nals);
  }

  lemma {:induction false} PicturesAppend(codec: Codec, a: seq<Nal>, b: seq<Nal>)
    ensures Pictures(codec, a + b) == Pictures(codec, a) + Pictures(codec, b)
  {
    if a == [] {
      assert a + b == b;
    } else {
      assert (a + b)[1..] == a[1..] + b;
      PicturesAppend(codec, a[1..], b);
    }
  }

  lemma PicturesStep(codec: Codec, nals: seq<Nal>, k: nat)
    requires k < |nals|
    ensures Pictures(codec, nals[..k + 1])
         == Pictures(codec, nals[..k]) + if IsPicture(codec, nals[k]) then [nals[k]] else []
  {
    assert nals[..k + 1] == nals[..k] + [nals[k]];
    PicturesAppend(codec, nals[..k], [nals[k]]);
  }

  lemma {:induction false} NoPictures(codec: Codec, nals: seq<Nal>)
    requires NoPicture(codec, nals)
    ensures Pictures(codec, nals) == []
  {
    if nals != [] { NoPictures(codec, nals[1..]); }
  }

  lemma UnitHasOnePicture(codec: Codec, unit: AccessUnit)
    requires WellFormed(codec, unit)
    ensures Pictures(codec, unit.nals) == [Picture(unit)]
  {
    var front := unit.nals[..|unit.nals| - 1];
    assert unit.nals == front + [Picture(unit)];
    PicturesAppend(codec, front, [Picture(unit)]);
    NoPictures(codec, front);
  }

  ghost function PictureOfEach(units: seq<AccessUnit>): seq<Nal>
  {
    seq(|units|, k requires 0 <= k < |units| => Picture(units[k]))
  }

  lemma PictureOfFirst(units: seq<AccessUnit>)
    requires units != []
    ensures PictureOfEach(units) == [Picture(units[0])] + PictureOfEach(units[1..])
  {
  }

  /** The units' pictures are the stream's pictures, once each and in order. */
  lemma {:induction false} PicturesOfPartition(codec: Codec, nals: seq<Nal>, units: seq<AccessUnit>, leftover: seq<Nal>)
    requires Partition(codec, nals, units, leftover)
    ensures Pictures(codec, nals) == PictureOfEach(units)
    decreases |units|
  {
    if units == [] {
      NoPictures(codec, leftover);
      assert nals == leftover;
    } else {
      var rest := nals[|units[0].nals|..];
      TailPartition(codec, nals, units, leftover);
      PicturesOfPartition(codec, rest, units[1..], leftover);
      PicturesAppend(codec, units[0].nals, rest);
      assert nals == units[0].nals + rest;
      UnitHasOnePicture(codec, units[0]);
      PictureOfFirst(units);
    }
  }

  /** The required parameter sets of a complete collection, in the order a decoder wants them. */
  function Required(sets: ParameterSets, codec: Codec): seq<Nal>
    requires IsComplete(sets, codec)
  {
    match codec
    case H264 => [sets.sps.value, sets.pps.value]
    case H265 => [sets.vps.value, sets.sps.value, sets.pps.value]
  }

  predicate Carriable(nals: seq<Nal>)
  {
    forall i :: 0 <= i < |nals| ==> nals[i] != [] && |nals[i]| < U32
  }

  /** The sample of one well-formed unit. */
  lemma SampleOfUnit(codec: Codec, unit: AccessUnit, sets: ParameterSets)
    requires WellFormed(codec, unit) && IsComplete(sets, codec)
    requires Carriable(Required(sets, codec)) && Carriable([Picture(unit)])
    ensures Read(Framed(SampleNals(unit, sets, codec)))
         == ((if unit.isKeyframe then Required(sets, codec) else []) + [Picture(unit)], None)
  {
    UnitHasOnePicture(codec, unit);
    assert SampleNals(unit, sets, codec) == (if unit.isKeyframe then Required(sets, codec) else []) + [Picture(unit)];
    ReadUndoesFramed(SampleNals(unit, sets, codec));
  }

  /** De-framing the samples of a capture gives its pictures once each in order, each keyframe
      right after every required parameter set exactly once, and no parameter set elsewhere. */
  lemma SamplesCarryTheStream(codec: Codec, nals: seq<Nal>, units: seq<AccessUnit>, leftover: seq<Nal>,
                              sets: ParameterSets, k: nat)
    requires Carriable(nals) && Partition(codec, nals, units, leftover)
    requires AreLatest(codec, nals, sets) && IsComplete(sets, codec)
    requires k < |units|
    ensures |units| == |Pictures(codec, nals)|
    ensures var picture := Pictures(codec, nals)[k];
      Read(Framed(SampleNals(units[k], sets, codec)))
      == ((if Classify(codec, picture).Keyframe? then Required(sets, codec) else []) + [picture], None)
    ensures forall p :: p in Required(sets, codec) ==> !IsPicture(codec, p)
  {
    PicturesOfPartition(codec, nals, units, leftover);
    assert Picture(units[k]) == Pictures(codec, nals)[k];
    PicturesComeFromStream(codec, nals, k);
    SetsComeFromStream(codec, nals, sets);
    SampleOfUnit(codec, units[k], sets);
  }

  lemma {:induction false} PicturesComeFromStream(codec: Codec, nals: seq<Nal>, k: nat)
    requires k < |Pictures(codec, nals)|
    ensures Pictures(codec, nals)[k] in nals
  {
    if IsPicture(codec, nals[0]) {
      if k > 0 { PicturesComeFromStream(codec, nals[1..], k - 1); }
    } else {
      PicturesComeFromStream(codec, nals[1..], k);
    }
  }

  lemma SetsComeFromStream(codec: Codec, nals: seq<Nal>, sets: ParameterSets)
    requires AreLatest(codec, nals, sets) && IsComplete(sets, codec)
    ensures forall p :: p in Required(sets, codec) ==> p in nals && !IsPicture(codec, p)
  {
  }
}
