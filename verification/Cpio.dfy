/**
 Removing AppleDouble companions ("._" entries) from an odc cpio archive (POSIX.1, pax utility,
 cpio Interchange Format).  Names are the bytes of the archive; whether a companion's content
 may be dropped is a predicate of its body that the caller supplies.
 */
module Cpio {
  import opened Wrappers
  import opened Bytes
  import opened Python

  const ODC_MAGIC: seq<byte> := [48, 55, 48, 55, 48, 55]              // 070707
  const ODC_HEADER_SIZE: nat := 76
  const ODC_TRAILER: seq<byte> := [84, 82, 65, 73, 76, 69, 82, 33, 33, 33]  // TRAILER!!!
  const SLASH: byte := 47
  const DOT_UNDERSCORE: seq<byte> := [46, 95]

  /** The source has no error for a negative size: what it does then is in `CpioLoop`. */
  datatype Error =
    | NotOdc | BadSize | NegativeSize | RunsPast | NoCompanion(name: seq<byte>) | NotDroppable(name: seq<byte>)

  datatype Entry = Entry(name: seq<byte>, raw: seq<byte>, body: seq<byte>)

  // ----- Reading

  /** The entry at the front of `data`, given the sizes in its header. */
  function Sized(data: seq<byte>, nameSize: int, fileSize: int): (r: Result<Entry, Error>)
    requires |data| >= ODC_HEADER_SIZE
    ensures r.Ok? ==> ODC_HEADER_SIZE <= |r.value.raw| <= |data| && r.value.raw == data[..|r.value.raw|]
  {
    if nameSize < 0 || fileSize < 0 then Err(NegativeSize)
    else
      var bodyStart := ODC_HEADER_SIZE + nameSize;
      var end := bodyStart + fileSize;
      if end > |data| then Err(RunsPast)
      else
        var name := if nameSize == 0 then [] else data[ODC_HEADER_SIZE..bodyStart - 1];
        Ok(Entry(name, data[..end], data[bodyStart..end]))
  }

  function First(data: seq<byte>): (r: Result<Entry, Error>)
    ensures r.Ok? ==> ODC_HEADER_SIZE <= |r.value.raw| <= |data| && r.value.raw == data[..|r.value.raw|]
  {
    if |data| < ODC_HEADER_SIZE || data[..6] != ODC_MAGIC then Err(NotOdc)
    else
      var nameSize, fileSize := Int8(data[59..65]), Int8(data[65..76]);
      if nameSize.None? || fileSize.None? then Err(BadSize)
      else Sized(data, nameSize.value, fileSize.value)
  }

  /** All entries through the trailer; what follows the trailer is not looked at. */
  function Entries(data: seq<byte>): Result<seq<Entry>, Error>
    decreases |data|
  {
    match First(data)
    case Err(error) => Err(error)
    case Ok(entry) =>
      if entry.name == ODC_TRAILER then Ok([entry])
      else
        match Entries(data[|entry.raw|..])
        case Err(error) => Err(error)
        case Ok(rest) => Ok([entry] + rest)
  }

  function After(front: seq<Entry>, rest: Result<seq<Entry>, Error>): Result<seq<Entry>, Error>
  {
    if rest.Err? then rest else Ok(front + rest.value)
  }

  method CutEntry(data: seq<byte>, position: nat, nameSize: int, fileSize: int) returns (r: Result<Entry, Error>)
    requires position + ODC_HEADER_SIZE <= |data|
    ensures r == Sized(data[position..], nameSize, fileSize)
  {
    if nameSize < 0 || fileSize < 0 { return Err(NegativeSize); }
    var nameStart := position + ODC_HEADER_SIZE;
    var bodyStart := nameStart + nameSize;
    var end := bodyStart + fileSize;
    if end > |data| { return Err(RunsPast); }
    SliceOfSlice(data, position, 0, end - position);
    SliceOfSlice(data, position, bodyStart - position, end - position);
    if nameSize == 0 { return Ok(Entry([], data[position..end], data[bodyStart..end])); }
    SliceOfSlice(data, position, ODC_HEADER_SIZE, bodyStart - 1 - position);
    return Ok(Entry(data[nameStart..bodyStart - 1], data[position..end], data[bodyStart..end]));
  }

  /** One round of the reading loop: the entry at `position`. */
  method ReadEntry(data: seq<byte>, position: nat) returns (r: Result<Entry, Error>)
    requires position <= |data|
    ensures r == First(data[position..])
  {
    if |data| < position + ODC_HEADER_SIZE { return Err(NotOdc); }
    var header := data[position..position + ODC_HEADER_SIZE];
    HeaderFields(data, position);
    if header[..6] != ODC_MAGIC { return Err(NotOdc); }
    var nameSize, fileSize := Int8(header[59..65]), Int8(header[65..76]);
    if nameSize.None? || fileSize.None? { return Err(BadSize); }
    r := CutEntry(data, position, nameSize.value, fileSize.value);
  }

  lemma HeaderFields(data: seq<byte>, position: nat)
    requires position + ODC_HEADER_SIZE <= |data|
    ensures var rest, header := data[position..], data[position..position + ODC_HEADER_SIZE];
      header[..6] == rest[..6] && header[59..65] == rest[59..65] && header[65..76] == rest[65..76]
  {
    SliceOfSlice(data, position, 0, 6);
    SliceOfSlice(data, position, 59, 65);
    SliceOfSlice(data, position, 65, 76);
    SliceOfWindow(data, position, position + ODC_HEADER_SIZE, 0, 6);
    SliceOfWindow(data, position, position + ODC_HEADER_SIZE, 59, 65);
    SliceOfWindow(data, position, position + ODC_HEADER_SIZE, 65, 76);
  }

  lemma StepEntries(front: seq<Entry>, rest: seq<byte>)
    requires First(rest).Ok?
    ensures var entry := First(rest).value;
      After(front, Entries(rest)) ==
        if entry.name == ODC_TRAILER then Ok(front + [entry]) else After(front + [entry], Entries(rest[|entry.raw|..]))
  {
    var entry := First(rest).value;
    if entry.name != ODC_TRAILER && Entries(rest[|entry.raw|..]).Ok? {
      ConcatAssoc(front, [entry], Entries(rest[|entry.raw|..]).value);
    }
  }

  /** One round of the reading loop: `next` is where the following entry starts, if this one is not
      the trailer. */
  method ReadNext(entries: seq<Entry>, data: seq<byte>, position: nat)
    returns (r: Result<seq<Entry>, Error>, next: Option<nat>)
    requires position <= |data|
    ensures next.None? ==> r == After(entries, Entries(data[position..]))
    ensures next.Some? ==>
      && r.Ok? && position < next.value <= |data|
      && After(r.value, Entries(data[next.value..])) == After(entries, Entries(data[position..]))
  {
    var entry := ReadEntry(data, position);
    if entry.Err? { return Err(entry.error), None; }
    StepEntries(entries, data[position..]);
    r := Ok(entries + [entry.value]);
    var end := position + |entry.value.raw|;
    assert data[position..][|entry.value.raw|..] == data[end..];
    next := if entry.value.name == ODC_TRAILER then None else Some(end);
  }

  method ReadOdc(data: seq<byte>) returns (r: Result<seq<Entry>, Error>)
    ensures r == Entries(data)
  {
    var position := Some(0);
    r := Ok([]);
    assert data[0..] == data;
    assert Entries(data).Ok? ==> [] + Entries(data).value == Entries(data).value;
    while position.Some?
      invariant position.None? ==> r == Entries(data)
      invariant position.Some? ==>
        r.Ok? && position.value <= |data| && After(r.value, Entries(data[position.value..])) == Entries(data)
      decreases if position.Some? then |data| - position.value + 1 else 0
    {
      r, position := ReadNext(r.value, data, position.value);
    }
  }

  // ----- Names

  /** The position after the last slash, or 0. */
  function BaseStart(name: seq<byte>): (i: nat)
    ensures i <= |name|
  {
    if name == [] then 0 else if name[|name| - 1] == SLASH then |name| else BaseStart(name[..|name| - 1])
  }

  predicate IsAppleDouble(name: seq<byte>) { DOT_UNDERSCORE <= name[BaseStart(name)..] }

  /** The entry an AppleDouble entry belongs to. */
  function Sibling(name: seq<byte>): (s: seq<byte>)
    requires IsAppleDouble(name)
    ensures |s| < |name|
  {
    var b := BaseStart(name);
    var base := name[b..];
    if b > 1 then name[..b - 1] + [SLASH] + base[2..] else base[2..]
  }

  predicate Drops(name: seq<byte>) { name != ODC_TRAILER && IsAppleDouble(name) }

  function Names(entries: seq<Entry>): set<seq<byte>> { set i | 0 <= i < |entries| :: entries[i].name }

  // ----- Stripping

  function Kept(entries: seq<Entry>): seq<Entry>
  {
    if entries == [] then []
    else (if Drops(entries[0].name) then [] else [entries[0]]) + Kept(entries[1..])
  }

  function DroppedNames(entries: seq<Entry>): seq<seq<byte>>
  {
    if entries == [] then []
    else (if Drops(entries[0].name) then [entries[0].name] else []) + DroppedNames(entries[1..])
  }

  function Raws(entries: seq<Entry>): seq<byte>
  {
    if entries == [] then [] else entries[0].raw + Raws(entries[1..])
  }

  /** Why an entry stops the stripping: a companion of nothing, or one whose content says more. */
  function Refusal(entry: Entry, names: set<seq<byte>>, droppable: seq<byte> -> bool): Option<Error>
  {
    if !Drops(entry.name) then None
    else if Sibling(entry.name) !in names then Some(NoCompanion(entry.name))
    else if !droppable(entry.body) then Some(NotDroppable(entry.name))
    else None
  }

  datatype Stripped = Stripped(archive: seq<byte>, dropped: seq<seq<byte>>, kept: int)

  lemma {:induction false} KeptAppend(a: seq<Entry>, b: seq<Entry>)
    ensures Kept(a + b) == Kept(a) + Kept(b)
  {
    if a == [] {
      assert a + b == b;
    } else {
      assert (a + b)[0] == a[0] && (a + b)[1..] == a[1..] + b;
      KeptAppend(a[1..], b);
      ConcatAssoc(if Drops(a[0].name) then [] else [a[0]], Kept(a[1..]), Kept(b));
    }
  }

  lemma {:induction false} DroppedAppend(a: seq<Entry>, b: seq<Entry>)
    ensures DroppedNames(a + b) == DroppedNames(a) + DroppedNames(b)
  {
    if a == [] {
      assert a + b == b;
    } else {
      assert (a + b)[0] == a[0] && (a + b)[1..] == a[1..] + b;
      DroppedAppend(a[1..], b);
      ConcatAssoc(if Drops(a[0].name) then [a[0].name] else [], DroppedNames(a[1..]), DroppedNames(b));
    }
  }

  lemma KeptStep(entries: seq<Entry>, k: nat)
    requires k < |entries|
    ensures Kept(entries[..k + 1]) == Kept(entries[..k]) + if Drops(entries[k].name) then [] else [entries[k]]
    ensures DroppedNames(entries[..k + 1])
         == DroppedNames(entries[..k]) + if Drops(entries[k].name) then [entries[k].name] else []
  {
    assert entries[..k + 1] == entries[..k] + [entries[k]];
    KeptAppend(entries[..k], [entries[k]]);
    DroppedAppend(entries[..k], [entries[k]]);
  }

  ghost predicate NoRefusal(entries: seq<Entry>, k: nat, names: set<seq<byte>>, droppable: seq<byte> -> bool)
    requires k <= |entries|
  {
    forall i :: 0 <= i < k ==> Refusal(entries[i], names, droppable).None?
  }

  ghost predicate MayStrip(entries: seq<Entry>, droppable: seq<byte> -> bool)
  {
    NoRefusal(entries, |entries|, Names(entries), droppable)
  }

  /** `error` is the refusal of the first entry that has one. */
  ghost predicate FirstRefusal(entries: seq<Entry>, droppable: seq<byte> -> bool, error: Error)
  {
    exists k :: 0 <= k < |entries| && Refusal(entries[k], Names(entries), droppable) == Some(error)
      && NoRefusal(entries, k, Names(entries), droppable)
  }

  method Judge(entry: Entry, names: set<seq<byte>>, droppable: seq<byte> -> bool) returns (r: Result<bool, Error>)
    ensures r == var refusal := Refusal(entry, names, droppable);
      if refusal.Some? then Err(refusal.value) else Ok(Drops(entry.name))
  {
    if !Drops(entry.name) { return Ok(false); }
    if Sibling(entry.name) !in names { return Err(NoCompanion(entry.name)); }
    if !droppable(entry.body) { return Err(NotDroppable(entry.name)); }
    return Ok(true);
  }

  method Filter(entries: seq<Entry>, droppable: seq<byte> -> bool) returns (r: Result<Stripped, Error>)
    ensures r.Ok? ==> MayStrip(entries, droppable)
    ensures r.Ok? ==> r.value == Stripped(Raws(Kept(entries)), DroppedNames(entries), |Kept(entries)| - 1)
    ensures r.Err? ==> FirstRefusal(entries, droppable, r.error)
  {
    var names := Names(entries);
    var kept: seq<Entry> := [];
    var dropped: seq<seq<byte>> := [];
    for k := 0 to |entries|
      invariant NoRefusal(entries, k, names, droppable)
      invariant kept == Kept(entries[..k]) && dropped == DroppedNames(entries[..k])
    {
      KeptStep(entries, k);
      var drops :- Judge(entries[k], names, droppable);
      if drops {
        dropped := dropped + [entries[k].name];
      } else {
        kept := kept + [entries[k]];
      }
    }
    assert entries[..|entries|] == entries;
    return Ok(Stripped(Raws(kept), dropped, |kept| - 1));
  }

  /** Strips, or refuses without producing anything: exactly if the archive does not parse or
      some "._" entry has no companion or content worth keeping. */
  method StripCpio(data: seq<byte>, droppable: seq<byte> -> bool) returns (r: Result<Stripped, Error>)
    ensures r.Ok? <==> (Entries(data).Ok? && MayStrip(Entries(data).value, droppable))
    ensures r.Err? ==>
      if Entries(data).Err? then r.error == Entries(data).error
      else FirstRefusal(Entries(data).value, droppable, r.error)
    ensures r.Ok? ==>
      var entries := Entries(data).value;
      r.value == Stripped(Raws(Kept(entries)), DroppedNames(entries), |Kept(entries)| - 1)
  {
    var read := ReadOdc(data);
    if read.Err? { return Err(read.error); }
    r := Filter(read.value, droppable);
  }

  // ----- The result parses to what was kept

  /** An entry that reads back from its own bytes, whatever follows. */
  ghost predicate SelfContained(e: Entry)
  {
    |e.raw| >= ODC_HEADER_SIZE && forall tail: seq<byte> :: First(e.raw + tail) == Ok(e)
  }

  lemma FirstDependsOnItsBytes(data: seq<byte>, tail: seq<byte>)
    requires First(data).Ok?
    ensures First(First(data).value.raw + tail) == First(data)
  {
    var e := First(data).value;
    var other := e.raw + tail;
    var nameSize, fileSize := Int8(data[59..65]).value, Int8(data[65..76]).value;
    var n := |e.raw|;
    assert forall i :: 0 <= i < n ==> other[i] == data[i];
    assert other[..6] == data[..6] && other[59..65] == data[59..65] && other[65..76] == data[65..76];
    var bodyStart := ODC_HEADER_SIZE + nameSize;
    assert n == bodyStart + fileSize;
    assert other[..n] == data[..n] && other[bodyStart..n] == data[bodyStart..n];
    if nameSize > 0 {
      assert other[ODC_HEADER_SIZE..bodyStart - 1] == data[ODC_HEADER_SIZE..bodyStart - 1];
    }
  }

  lemma FirstIsSelfContained(data: seq<byte>)
    requires First(data).Ok?
    ensures SelfContained(First(data).value)
  {
    forall tail: seq<byte>
      ensures First(First(data).value.raw + tail) == First(data)
    {
      FirstDependsOnItsBytes(data, tail);
    }
  }

  /** A list of entries as an archive holds them: the trailer comes last and only there. */
  ghost predicate IsArchive(entries: seq<Entry>)
  {
    && entries != []
    && (forall i :: 0 <= i < |entries| ==> SelfContained(entries[i]))
    && (forall i :: 0 <= i < |entries| ==> (entries[i].name == ODC_TRAILER <==> i == |entries| - 1))
  }

  lemma {:induction false} EntriesAreArchive(data: seq<byte>)
    requires Entries(data).Ok?
    ensures IsArchive(Entries(data).value)
    decreases |data|
  {
    var entry := First(data).value;
    FirstIsSelfContained(data);
    if entry.name != ODC_TRAILER {
      EntriesAreArchive(data[|entry.raw|..]);
      var rest := Entries(data[|entry.raw|..]).value;
      var entries := Entries(data).value;
      assert entries == [entry] + rest;
      assert forall i :: 1 <= i < |entries| ==> entries[i] == rest[i - 1];
    }
  }

  /** Writing an archive's entries one after the other and reading them gives them back. */
  lemma {:induction false} ArchiveReadsBack(entries: seq<Entry>)
    requires IsArchive(entries)
    ensures Entries(Raws(entries)) == Ok(entries)
    decreases |entries|
  {
    var e := entries[0];
    var data := Raws(entries);
    assert data == e.raw + Raws(entries[1..]);
    assert First(data) == Ok(e);
    assert data[|e.raw|..] == Raws(entries[1..]);
    if |entries| == 1 {
      assert entries == [e];
    } else {
      assert IsArchive(entries[1..]) by {
        assert forall i :: 0 <= i < |entries| - 1 ==> entries[1..][i] == entries[i + 1];
      }
      ArchiveReadsBack(entries[1..]);
      assert [e] + entries[1..] == entries;
    }
  }

  lemma {:induction false} KeptIsArchive(entries: seq<Entry>)
    requires IsArchive(entries)
    ensures IsArchive(Kept(entries))
    decreases |entries|
  {
    var e := entries[0];
    if |entries| == 1 {
      assert Kept(entries) == [e] + Kept([]) == [e];
    } else {
      assert forall i :: 0 <= i < |entries| - 1 ==> entries[1..][i] == entries[i + 1];
      KeptIsArchive(entries[1..]);
      var rest := Kept(entries[1..]);
      if !Drops(e.name) {
        assert Kept(entries) == [e] + rest;
        assert forall i :: 1 <= i < |Kept(entries)| ==> Kept(entries)[i] == rest[i - 1];
      } else {
        assert Kept(entries) == rest;
      }
    }
  }

  /** The stripped archive parses to exactly the entries that are not companions, byte for byte
      and in order, through the trailer. */
  lemma StrippedParsesToKept(data: seq<byte>)
    requires Entries(data).Ok?
    ensures Entries(Raws(Kept(Entries(data).value))) == Ok(Kept(Entries(data).value))
  {
    EntriesAreArchive(data);
    KeptIsArchive(Entries(data).value);
    ArchiveReadsBack(Kept(Entries(data).value));
  }

  lemma {:induction false} KeptNothingToDrop(entries: seq<Entry>)
    ensures forall i :: 0 <= i < |Kept(entries)| ==> !Drops(Kept(entries)[i].name)
    ensures Kept(Kept(entries)) == Kept(entries) && DroppedNames(Kept(entries)) == []
  {
    if entries != [] {
      KeptNothingToDrop(entries[1..]);
      if !Drops(entries[0].name) {
        assert Kept(entries) == [entries[0]] + Kept(entries[1..]);
        assert Kept(entries)[1..] == Kept(entries[1..]);
      } else {
        assert Kept(entries) == Kept(entries[1..]);
      }
    }
  }

  /** Stripping twice is stripping once: the second pass is allowed, drops nothing and changes no byte. */
  lemma StrippingIsIdempotent(data: seq<byte>, droppable: seq<byte> -> bool)
    requires Entries(data).Ok?
    ensures var archive := Raws(Kept(Entries(data).value));
      && Entries(archive).Ok? && MayStrip(Entries(archive).value, droppable)
      && Raws(Kept(Entries(archive).value)) == archive
      && DroppedNames(Entries(archive).value) == []
  {
    StrippedParsesToKept(data);
    KeptNothingToDrop(Entries(data).value);
  }

  // ----- Companions

  /** Where following companions leads. */
  function Owner(name: seq<byte>): seq<byte>
    decreases |name|
  {
    if Drops(name) then Owner(Sibling(name)) else name
  }

  lemma {:induction false} OwnerIsKept(names: set<seq<byte>>, name: seq<byte>)
    requires forall n :: n in names && Drops(n) ==> Sibling(n) in names
    requires name in names
    ensures Owner(name) in names && !Drops(Owner(name))
    decreases |name|
  {
    if Drops(name) { OwnerIsKept(names, Sibling(name)); }
  }

  lemma {:induction false} KeptHasUndropped(entries: seq<Entry>, name: seq<byte>)
    requires name in Names(entries) && !Drops(name)
    ensures name in Names(Kept(entries))
  {
    var i :| 0 <= i < |entries| && entries[i].name == name;
    if i == 0 {
      assert Kept(entries)[0].name == name;
    } else {
      assert entries[1..][i - 1].name == name;
      KeptHasUndropped(entries[1..], name);
      var j :| 0 <= j < |Kept(entries[1..])| && Kept(entries[1..])[j].name == name;
      var skip := if Drops(entries[0].name) then 0 else 1;
      assert Kept(entries)[j + skip].name == name;
    }
  }

  /** Whatever chain of companions a dropped name hangs on, its end survives in the archive. */
  lemma DroppedBelongsToKept(data: seq<byte>, droppable: seq<byte> -> bool, name: seq<byte>)
    requires Entries(data).Ok? && MayStrip(Entries(data).value, droppable)
    requires name in Names(Entries(data).value)
    ensures Owner(name) in Names(Kept(Entries(data).value))
  {
    var entries := Entries(data).value;
    forall n | n in Names(entries) && Drops(n)
      ensures Sibling(n) in Names(entries)
    {
      var i :| 0 <= i < |entries| && entries[i].name == n;
      assert Refusal(entries[i], Names(entries), droppable).None?;
    }
    OwnerIsKept(Names(entries), name);
    KeptHasUndropped(entries, Owner(name));
  }
}
