/** The chunked scan of a release binary for dormant transport markers. */
module BinaryScan {
  import opened Wrappers
  import opened Bytes

  /** Bytes are characters here, so that markers read as text. */
  const FORBIDDEN: seq<string> := ["transport:wss-v1", "wss://", "arcen-direct-wss"]

  predicate OccursAt(marker: string, text: string, i: int)
  {
    0 <= i <= |text| - |marker| && text[i..i + |marker|] == marker
  }

  ghost predicate Occurs(marker: string, text: string)
  {
    exists i :: OccursAt(marker, text, i)
  }

  ghost predicate Clean(markers: seq<string>, text: string)
  {
    forall m :: m in markers ==> !Occurs(m, text)
  }

  method Contains(text: string, marker: string) returns (found: bool)
    ensures found <==> Occurs(marker, text)
  {
    var i := 0;
    while i + |marker| <= |text|
      invariant forall j :: 0 <= j < i ==> !OccursAt(marker, text, j)
    {
      if text[i..i + |marker|] == marker {
        assert OccursAt(marker, text, i);
        return true;
      }
      i := i + 1;
    }
    return false;
  }

  /** The length of the longest marker. */
  function Longest(markers: seq<string>): (n: nat)
    ensures forall m :: m in markers ==> |m| <= n
    ensures markers != [] ==> exists m :: m in markers && |m| == n
  {
    if markers == [] then 0
    else
      var rest := Longest(markers[1..]);
      assert markers == [markers[0]] + markers[1..];
      if |markers[0]| >= rest then |markers[0]| else rest
  }

  /** The last `n` bytes, or all there are. */
  function Suffix(text: string, n: nat): string
  {
    if |text| <= n then text else text[|text| - n..]
  }

  /** A marker in `seen + chunk` lies in `seen` or within an overlap's reach of `chunk`. */
  lemma MarkerIsSeenOrInWindow(marker: string, seen: string, chunk: string, overlap: nat)
    requires |marker| <= overlap + 1 && marker != []
    ensures Occurs(marker, seen + chunk) <==> Occurs(marker, seen) || Occurs(marker, Suffix(seen, overlap) + chunk)
  {
    var all, window := seen + chunk, Suffix(seen, overlap) + chunk;
    var cut := |all| - |window|;
    assert window == all[cut..];
    forall i | OccursAt(marker, all, i)
      ensures Occurs(marker, seen) || Occurs(marker, window)
    {
      if i + |marker| <= |seen| {
        assert seen[i..i + |marker|] == all[i..i + |marker|];
        assert OccursAt(marker, seen, i);
      } else {
        assert window[i - cut..i - cut + |marker|] == all[i..i + |marker|];
        assert OccursAt(marker, window, i - cut);
      }
    }
    forall i | OccursAt(marker, seen, i)
      ensures Occurs(marker, all)
    {
      assert all[i..i + |marker|] == seen[i..i + |marker|];
      assert OccursAt(marker, all, i);
    }
    forall i | OccursAt(marker, window, i)
      ensures Occurs(marker, all)
    {
      assert all[cut + i..cut + i + |marker|] == window[i..i + |marker|];
      assert OccursAt(marker, all, cut + i);
    }
  }

  /** The window of the next scan is the same suffix as if the file had come in one piece. */
  lemma SuffixOfWindow(seen: string, chunk: string, overlap: nat)
    ensures Suffix(Suffix(seen, overlap) + chunk, overlap) == Suffix(seen + chunk, overlap)
  {
  }

  lemma CleanWindow(markers: seq<string>, seen: string, chunk: string, overlap: nat)
    requires forall m :: m in markers ==> 0 < |m| <= overlap + 1
    requires Clean(markers, seen)
    ensures Clean(markers, seen + chunk) <==> Clean(markers, Suffix(seen, overlap) + chunk)
  {
    forall m | m in markers
      ensures Occurs(m, seen + chunk) <==> Occurs(m, Suffix(seen, overlap) + chunk)
    {
      MarkerIsSeenOrInWindow(m, seen, chunk, overlap);
    }
  }

  method FindMarker(markers: seq<string>, window: string) returns (r: Option<string>)
    ensures r.None? <==> Clean(markers, window)
    ensures r.Some? ==> r.value in markers && Occurs(r.value, window)
  {
    for v := 0 to |markers|
      invariant forall w :: 0 <= w < v ==> !Occurs(markers[w], window)
    {
      var found := Contains(window, markers[v]);
      if found { return Some(markers[v]); }
    }
    return None;
  }

  lemma DirtyStaysDirty(markers: seq<string>, marker: string, chunks: seq<string>, k: nat, overlap: nat)
    requires k < |chunks| && marker in markers && 0 < |marker| <= overlap + 1
    requires Occurs(marker, Suffix(Concat(chunks[..k]), overlap) + chunks[k])
    ensures Occurs(marker, Concat(chunks)) && !Clean(markers, Concat(chunks))
  {
    MarkerIsSeenOrInWindow(marker, Concat(chunks[..k]), chunks[k], overlap);
    MarkerStays(marker, Concat(chunks[..k]) + chunks[k], Concat(chunks[k + 1..]));
    ConcatAround(chunks, k);
  }

  lemma ConcatAround(chunks: seq<string>, k: nat)
    requires k < |chunks|
    ensures Concat(chunks) == Concat(chunks[..k]) + chunks[k] + Concat(chunks[k + 1..])
  {
    ConcatOne(chunks[..k], chunks[k]);
    assert chunks == (chunks[..k] + [chunks[k]]) + chunks[k + 1..];
    ConcatSplit(chunks[..k] + [chunks[k]], chunks[k + 1..]);
  }

  /** A file is refused exactly if a marker occurs anywhere in it, however its reads cut it up:
      a marker may span any number of chunks. */
  method Scan(markers: seq<string>, chunks: seq<string>) returns (r: Result<(), string>)
    requires markers != [] && forall m :: m in markers ==> m != []
    requires forall i :: 0 <= i < |chunks| ==> chunks[i] != []
    ensures r.Ok? <==> Clean(markers, Concat(chunks))
    ensures r.Err? ==> r.error in markers && Occurs(r.error, Concat(chunks))
  {
    var overlap := Longest(markers) - 1;
    var previous: string := "";
    for k := 0 to |chunks|
      invariant previous == Suffix(Concat(chunks[..k]), overlap)
      invariant Clean(markers, Concat(chunks[..k]))
    {
      var window := previous + chunks[k];
      var found := FindMarker(markers, window);
      if found.Some? {
        DirtyStaysDirty(markers, found.value, chunks, k, overlap);
        return Err(found.value);
      }
      CleanWindow(markers, Concat(chunks[..k]), chunks[k], overlap);
      SuffixOfWindow(Concat(chunks[..k]), chunks[k], overlap);
      ConcatOne(chunks[..k], chunks[k]);
      assert chunks[..k + 1] == chunks[..k] + [chunks[k]];
      previous := Suffix(window, overlap);
    }
    assert chunks[..|chunks|] == chunks;
    return Ok(());
  }

  method Verify(chunks: seq<string>) returns (r: Result<(), string>)
    requires forall i :: 0 <= i < |chunks| ==> chunks[i] != []
    ensures r.Ok? <==>
      && !Occurs("transport:wss-v1", Concat(chunks)) && !Occurs("wss://", Concat(chunks))
      && !Occurs("arcen-direct-wss", Concat(chunks))
    ensures r.Err? ==> r.error in FORBIDDEN && Occurs(r.error, Concat(chunks))
  {
    r := Scan(FORBIDDEN, chunks);
  }

  lemma MarkerStays(marker: string, text: string, more: string)
    requires Occurs(marker, text)
    ensures Occurs(marker, text + more)
  {
    var i :| OccursAt(marker, text, i);
    assert (text + more)[i..i + |marker|] == text[i..i + |marker|];
    assert OccursAt(marker, text + more, i);
  }
}
