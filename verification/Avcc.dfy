/** AVCC framing: writing it, and converting it to Annex-B. */
module Avcc {
  import opened Wrappers
  import opened Bytes
  import opened AnnexB

  /** Each unit behind its length; the cast to `u32` truncates. */
  function Framed(nals: seq<Nal>): seq<byte>
  {
    if nals == [] then [] else Be32(|nals[0]| % U32) + nals[0] + Framed(nals[1..])
  }

  method NalsToAvcc(nals: seq<Nal>) returns (out: seq<byte>)
    ensures out == Framed(nals)
  {
    out := [];
    for k := 0 to |nals|
      invariant out + Framed(nals[k..]) == Framed(nals)
    {
      out := out + Be32(|nals[k]| % U32);
      out := out + nals[k];
      assert nals[k..][1..] == nals[k + 1..];
    }
  }

  datatype AvccError = EndsMidPrefix | LengthExceedsBuffer

  /** The units read before the end or the first error, empty ones skipped. */
  function Read(input: seq<byte>): (r: (seq<Nal>, Option<AvccError>))
    decreases |input|
  {
    if input == [] then ([], None)
    else if |input| < 4 then ([], Some(EndsMidPrefix))
    else
      var len := FromBe32(input[..4]);
      if |input| - 4 < len then ([], Some(LengthExceedsBuffer))
      else
        var (nals, error) := Read(input[4 + len..]);
        (if len == 0 then nals else [input[4..4 + len]] + nals, error)
  }

  function Coded(nals: seq<Nal>): seq<byte>
  {
    if nals == [] then [] else START4 + nals[0] + Coded(nals[1..])
  }

  lemma {:induction false} CodedAppend(a: seq<Nal>, b: seq<Nal>)
    ensures Coded(a + b) == Coded(a) + Coded(b)
  {
    if a == [] {
      assert a + b == b;
    } else {
      assert (a + b)[1..] == a[1..] + b;
      CodedAppend(a[1..], b);
    }
  }

  /** Appends to `out` in place; on an error the units before it have been appended. */
  method AvccToAnnexB(avcc: seq<byte>, before: seq<byte>) returns (r: Result<(), AvccError>, out: seq<byte>)
    ensures out == before + Coded(Read(avcc).0)
    ensures r == match Read(avcc).1 case None => Ok(()) case Some(error) => Err(error)
  {
    var input := avcc;
    out := before;
    ghost var done: seq<Nal> := [];
    while input != []
      invariant out == before + Coded(done)
      invariant done + Read(input).0 == Read(avcc).0 && Read(input).1 == Read(avcc).1
      decreases |input|
    {
      assert done + [] == done;
      if |input| < 4 { return Err(EndsMidPrefix), out; }
      var rest := input[4..];
      var len := FromBe32(input[..4]);
      if |rest| < len { return Err(LengthExceedsBuffer), out; }
      assert rest[len..] == input[4 + len..] && rest[..len] == input[4..4 + len];
      if len == 0 {
        input := rest[len..];
        continue;
      }
      out := out + START4;
      out := out + rest[..len];
      CodedAppend(done, [rest[..len]]);
      assert Coded([rest[..len]]) == START4 + rest[..len];
      ConcatAssoc(done, [rest[..len]], Read(rest[len..]).0);
      done := done + [rest[..len]];
      input := rest[len..];
    }
    assert done + [] == done;
    return Ok(()), out;
  }
}
