/** The admission probe's report: what the child prints and what the parent reads. */
module ProbeTraces {
  import opened Wrappers
  import opened Arithmetic
  import opened Text
  import opened ProbeArguments

  const SAMPLE_PREFIX: string := "ARCEN-ENCODER-PROBE-SAMPLE"
  const DONE_PREFIX: string := "ARCEN-ENCODER-PROBE-DONE"
  const U128_MAX: nat := 0xFFFF_FFFF_FFFF_FFFF_FFFF_FFFF_FFFF_FFFF

  datatype Sample = Sample(sequence: nat, kind: Kind, queueNs: nat, encodeNs: nat, delivered: bool)

  datatype Trace = Trace(elapsedNs: nat, samples: seq<Sample>)

  // ----- Printing

  datatype Field = Field(name: string, value: string)

  function Word(f: Field): string { f.name + "=" + f.value }

  function WordsOf(fields: seq<Field>): (ws: seq<string>)
    ensures |ws| == |fields| && forall i :: 0 <= i < |fields| ==> ws[i] == Word(fields[i])
  {
    seq(|fields|, i requires 0 <= i < |fields| => Word(fields[i]))
  }

  function KindToken(kind: Kind): string { if kind.Sparse? then "sparse" else "full-motion" }

  function BoolText(b: bool): string { if b then "true" else "false" }

  function SampleFields(s: Sample): seq<Field>
  {
    [Field("version", "1"), Field("sequence", Decimal(s.sequence)), Field("kind", KindToken(s.kind)),
     Field("queue_ns", Decimal(s.queueNs)), Field("encode_ns", Decimal(s.encodeNs)),
     Field("delivered", BoolText(s.delivered))]
  }

  function DoneFields(elapsedNs: nat, samples: nat): seq<Field>
  {
    [Field("version", "1"), Field("elapsed_ns", Decimal(elapsedNs)), Field("samples", Decimal(samples))]
  }

  function SampleLine(s: Sample): string { SAMPLE_PREFIX + Spaced(WordsOf(SampleFields(s))) }

  function DoneLine(elapsedNs: nat, samples: nat): string
  {
    DONE_PREFIX + Spaced(WordsOf(DoneFields(elapsedNs, samples)))
  }

  function SampleLines(samples: seq<Sample>): (lines: seq<string>)
    ensures |lines| == |samples|
  {
    seq(|samples|, i requires 0 <= i < |samples| => SampleLine(samples[i]))
  }

  function Report(t: Trace): string { Unlines(SampleLines(t.samples) + [DoneLine(t.elapsedNs, |t.samples|)]) }

  // ----- The child's loop

  /** When sample `i` of `n` is due, in nanoseconds after the start of the window. */
  function Offset(windowNs: nat, i: nat, n: nat): nat
    requires n > 0
  {
    (if windowNs * i <= U128_MAX then windowNs * i else U128_MAX) / n
  }

  datatype EncodeResult = EncodeResult(encodeNs: nat, delivered: bool)

  datatype ProbeInput = ProbeInput(kind: Kind, dirty: nat, forceIdr: bool)

  datatype ProbeError = EncodeFailed | ScheduleTooLong | WriteFailed

  /** How long the writer accepts lines, and whether it can be flushed in the end. */
  datatype Writer = Writer(lines: nat, flushes: bool)

  /** The encoder is asked for the warm-up frames and then the sample frames, and only its first
      picture is forced to be a keyframe. */
  function InputsOf(o: Options, n: nat): seq<ProbeInput>
    requires n <= o.warmup + |o.frames|
  {
    seq(n, i requires 0 <= i < n =>
      if i < o.warmup then ProbeInput(FullMotion, FULL, i == 0)
      else ProbeInput(o.frames[i - o.warmup].kind, o.frames[i - o.warmup].dirty, i == 0))
  }

  function SampleAt(o: Options, i: nat, queueNs: nat, result: EncodeResult): Sample
    requires i < |o.frames|
  {
    Sample(o.frames[i].sequence, o.frames[i].kind, queueNs, result.encodeNs, result.delivered)
  }

  /** The samples of a run whose encodes all succeeded. */
  function SamplesOf(o: Options, outcomes: seq<Option<EncodeResult>>, queueNs: seq<nat>, n: nat): (ss: seq<Sample>)
    requires n <= |o.frames| == |queueNs| && |outcomes| == o.warmup + |o.frames|
    requires forall i :: 0 <= i < o.warmup + n ==> outcomes[i].Some?
    ensures |ss| == n
  {
    seq(n, i requires 0 <= i < n && outcomes[o.warmup + i].Some? =>
      SampleAt(o, i, queueNs[i], outcomes[o.warmup + i].value))
  }

  lemma OneMoreInput(o: Options, n: nat)
    requires n < o.warmup + |o.frames|
    ensures InputsOf(o, n + 1) == InputsOf(o, n) +
      [if n < o.warmup then ProbeInput(FullMotion, FULL, n == 0)
       else ProbeInput(o.frames[n - o.warmup].kind, o.frames[n - o.warmup].dirty, n == 0)]
  {
  }

  /** Warm-up pictures are full motion, fully dirty; sample pictures are the request's; and only the
      very first picture is forced to be a keyframe. */
  lemma InputsAre(o: Options, n: nat, i: nat)
    requires i < n <= o.warmup + |o.frames|
    ensures InputsOf(o, n)[i].forceIdr <==> i == 0
    ensures i < o.warmup ==> InputsOf(o, n)[i].kind == FullMotion && InputsOf(o, n)[i].dirty == 10_000
    ensures i >= o.warmup ==>
      InputsOf(o, n)[i].kind == o.frames[i - o.warmup].kind && InputsOf(o, n)[i].dirty == o.frames[i - o.warmup].dirty
  {
  }

  /** Sample `i` is that of frame `i`: how late it started, how long its own encode took, and
      whether that delivered. */
  lemma SamplesAre(o: Options, outcomes: seq<Option<EncodeResult>>, queueNs: seq<nat>, i: nat)
    requires i < |o.frames| == |queueNs| && |outcomes| == o.warmup + |o.frames| && AllEncoded(outcomes)
    ensures var sample := SamplesOf(o, outcomes, queueNs, |o.frames|)[i];
      && sample.sequence == o.frames[i].sequence && sample.kind == o.frames[i].kind
      && sample.queueNs == queueNs[i] && sample.encodeNs == outcomes[o.warmup + i].value.encodeNs
      && sample.delivered == outcomes[o.warmup + i].value.delivered
  {
  }

  /** The warm-up frames; stops at the first failed encode. */
  method WarmUp(o: Options, outcomes: seq<Option<EncodeResult>>) returns (ok: bool, inputs: seq<ProbeInput>)
    requires |outcomes| == o.warmup + |o.frames|
    ensures |inputs| <= o.warmup && inputs == InputsOf(o, |inputs|)
    ensures ok <==> forall i :: 0 <= i < o.warmup ==> outcomes[i].Some?
    ensures ok ==> |inputs| == o.warmup
  {
    var forceIdr := true;
    inputs := [];
    for k := 0 to o.warmup
      invariant |inputs| == k && inputs == InputsOf(o, k) && forceIdr == (k == 0)
      invariant forall i :: 0 <= i < k ==> outcomes[i].Some?
    {
      OneMoreInput(o, k);
      inputs := inputs + [ProbeInput(FullMotion, FULL, forceIdr)];
      if outcomes[k].None? { return false, inputs; }
      forceIdr := false;
    }
    return true, inputs;
  }

  predicate ScheduleFits(o: Options)
  {
    forall i :: 0 <= i < |o.frames| ==> Offset(o.windowNs, i, |o.frames|) <= U64_MAX
  }

  predicate AllEncoded(outcomes: seq<Option<EncodeResult>>) { forall i :: 0 <= i < |outcomes| ==> outcomes[i].Some? }

  method PrintSample(lines: seq<string>, ghost samples: seq<Sample>, sample: Sample) returns (longer: seq<string>)
    requires lines == SampleLines(samples)
    ensures longer == SampleLines(samples + [sample])
  {
    return lines + [SampleLine(sample)];
  }

  /** The measured frames, after a warm-up whose encodes succeeded. */
  method Measure(o: Options, outcomes: seq<Option<EncodeResult>>, queueNs: seq<nat>, warm: seq<ProbeInput>,
                 writer: Writer)
    returns (r: Result<seq<string>, ProbeError>, inputs: seq<ProbeInput>)
    requires |queueNs| == |o.frames| && |outcomes| == o.warmup + |o.frames|
    requires warm == InputsOf(o, o.warmup) && forall i :: 0 <= i < o.warmup ==> outcomes[i].Some?
    ensures |inputs| <= o.warmup + |o.frames| && inputs == InputsOf(o, |inputs|)
    ensures r.Ok? <==> AllEncoded(outcomes) && ScheduleFits(o) && |o.frames| <= writer.lines
    ensures r.Ok? ==>
      |inputs| == o.warmup + |o.frames| && r.value == SampleLines(SamplesOf(o, outcomes, queueNs, |o.frames|))
  {
    var forceIdr := o.warmup == 0;
    var lines: seq<string> := [];
    ghost var samples: seq<Sample> := [];
    inputs := warm;
    for k := 0 to |o.frames|
      invariant |inputs| == o.warmup + k && inputs == InputsOf(o, o.warmup + k) && forceIdr == (o.warmup + k == 0)
      invariant forall i :: 0 <= i < o.warmup + k ==> outcomes[i].Some?
      invariant forall i :: 0 <= i < k ==> Offset(o.windowNs, i, |o.frames|) <= U64_MAX
      invariant k <= writer.lines
      invariant samples == SamplesOf(o, outcomes, queueNs, k) && lines == SampleLines(samples)
    {
      if Offset(o.windowNs, k, |o.frames|) > U64_MAX { return Err(ScheduleTooLong), inputs; }
      OneMoreInput(o, o.warmup + k);
      inputs := inputs + [ProbeInput(o.frames[k].kind, o.frames[k].dirty, forceIdr)];
      if outcomes[o.warmup + k].None? { return Err(EncodeFailed), inputs; }
      forceIdr := false;
      if writer.lines <= k { return Err(WriteFailed), inputs; }
      var sample := SampleAt(o, k, queueNs[k], outcomes[o.warmup + k].value);
      OneMoreSample(o, outcomes, queueNs, k);
      lines := PrintSample(lines, samples, sample);
      samples := samples + [sample];
    }
    return Ok(lines), inputs;
  }

  /** `outcomes` are what the encoder answers, `queueNs` how late each sample's encode started and
      `elapsedNs` the time at the end; all three are the clock's and the encoder's to choose, as
      is `writer` the parent's. */
  method RunProbeLoop(o: Options, outcomes: seq<Option<EncodeResult>>, queueNs: seq<nat>, elapsedNs: nat,
                      writer: Writer)
    returns (r: Result<string, ProbeError>, inputs: seq<ProbeInput>)
    requires |queueNs| == |o.frames| && |outcomes| == o.warmup + |o.frames|
    ensures |inputs| <= o.warmup + |o.frames| && inputs == InputsOf(o, |inputs|)
    ensures r.Ok? <==> AllEncoded(outcomes) && ScheduleFits(o) && |o.frames| < writer.lines && writer.flushes
    ensures r.Ok? ==>
      && |inputs| == o.warmup + |o.frames|
      && r.value == Report(Trace(elapsedNs, SamplesOf(o, outcomes, queueNs, |o.frames|)))
  {
    var ok;
    ok, inputs := WarmUp(o, outcomes);
    if !ok { return Err(EncodeFailed), inputs; }
    var measured;
    measured, inputs := Measure(o, outcomes, queueNs, inputs, writer);
    if measured.Err? { return Err(measured.error), inputs; }
    if writer.lines <= |o.frames| || !writer.flushes { return Err(WriteFailed), inputs; }
    r := Ok(Unlines(measured.value + [DoneLine(elapsedNs, |o.frames|)]));
  }

  lemma OneMoreSample(o: Options, outcomes: seq<Option<EncodeResult>>, queueNs: seq<nat>, k: nat)
    requires k < |o.frames| == |queueNs| && |outcomes| == o.warmup + |o.frames|
    requires forall i :: 0 <= i < o.warmup + k + 1 ==> outcomes[i].Some?
    ensures SamplesOf(o, outcomes, queueNs, k + 1)
         == SamplesOf(o, outcomes, queueNs, k) + [SampleAt(o, k, queueNs[k], outcomes[o.warmup + k].value)]
  {
  }

  // ----- Parsing

  datatype TraceError =
    | MissingEquals | MissingField | DuplicateField | InvalidField | BadVersion | BadKind
    | SampleAfterDone | DuplicateDone | CountMismatch | UnknownLine | NoDone | WrongSampleCount | WrongSample

  function ParseWords(words: seq<string>): Result<seq<Field>, TraceError>
  {
    if words == [] then Ok([])
    else
      match SplitOnce(words[0], '=')
      case None => Err(MissingEquals)
      case Some((name, value)) =>
        var rest :- ParseWords(words[1..]);
        Ok([Field(name, value)] + rest)
  }

  function ParseFields(text: string): Result<seq<Field>, TraceError> { ParseWords(SplitWords(text)) }

  function ValuesOf(fields: seq<Field>, name: string): seq<string>
  {
    if fields == [] then []
    else (if fields[0].name == name then [fields[0].value] else []) + ValuesOf(fields[1..], name)
  }

  function ValueOf(fields: seq<Field>, name: string): Result<string, TraceError>
  {
    var values := ValuesOf(fields, name);
    if values == [] then Err(MissingField) else if |values| > 1 then Err(DuplicateField) else Ok(values[0])
  }

  function NumberOf(fields: seq<Field>, name: string, max: nat): Result<nat, TraceError>
  {
    var text :- ValueOf(fields, name);
    match ParseUnsigned(text, max) case Some(n) => Ok(n) case None => Err(InvalidField)
  }

  function RequireVersion(fields: seq<Field>): Result<(), TraceError>
  {
    var version :- ValueOf(fields, "version");
    if version != "1" then Err(BadVersion) else Ok(())
  }

  function ParseKind(text: string): Result<Kind, TraceError>
  {
    if text == "sparse" then Ok(Sparse) else if text == "full-motion" then Ok(FullMotion) else Err(BadKind)
  }

  function ParseBool(text: string): Result<bool, TraceError>
  {
    if text == "true" then Ok(true) else if text == "false" then Ok(false) else Err(InvalidField)
  }

  function SampleFromFields(fields: seq<Field>): Result<Sample, TraceError>
  {
    var _ :- RequireVersion(fields);
    var sequence :- NumberOf(fields, "sequence", U16_MAX);
    var kindText :- ValueOf(fields, "kind");
    var kind :- ParseKind(kindText);
    var queueNs :- NumberOf(fields, "queue_ns", U64_MAX);
    var encodeNs :- NumberOf(fields, "encode_ns", U64_MAX);
    var deliveredText :- ValueOf(fields, "delivered");
    var delivered :- ParseBool(deliveredText);
    Ok(Sample(sequence, kind, queueNs, encodeNs, delivered))
  }

  function ParseSample(text: string): Result<Sample, TraceError>
  {
    var fields :- ParseFields(text);
    SampleFromFields(fields)
  }

  /** The elapsed time of a completion that counts `expected` samples. */
  function DoneFromFields(fields: seq<Field>, expected: nat): Result<nat, TraceError>
  {
    var _ :- RequireVersion(fields);
    var samples :- NumberOf(fields, "samples", U64_MAX);
    if samples != expected then Err(CountMismatch) else NumberOf(fields, "elapsed_ns", U64_MAX)
  }

  function ParseDone(text: string, expected: nat): Result<nat, TraceError>
  {
    var fields :- ParseFields(text);
    DoneFromFields(fields, expected)
  }

  datatype Progress = Progress(samples: seq<Sample>, elapsed: Option<nat>)

  function ReadLine(p: Progress, line: string): Result<Progress, TraceError>
  {
    if line == "" then Ok(p)
    else if SAMPLE_PREFIX <= line then
      if p.elapsed.Some? then Err(SampleAfterDone)
      else
        var sample :- ParseSample(line[|SAMPLE_PREFIX|..]);
        Ok(p.(samples := p.samples + [sample]))
    else if DONE_PREFIX <= line then
      if p.elapsed.Some? then Err(DuplicateDone)
      else
        var elapsed :- ParseDone(line[|DONE_PREFIX|..], |p.samples|);
        Ok(p.(elapsed := Some(elapsed)))
    else Err(UnknownLine)
  }

  function ReadLines(p: Progress, lines: seq<string>): Result<Progress, TraceError>
    decreases |lines|
  {
    if lines == [] then Ok(p)
    else
      var next :- ReadLine(p, lines[0]);
      ReadLines(next, lines[1..])
  }

  predicate Fits(frames: seq<Frame>, samples: seq<Sample>)
  {
    |frames| == |samples| && forall i :: 0 <= i < |frames| ==>
      frames[i].sequence == samples[i].sequence && frames[i].kind == samples[i].kind
  }

  /** The trace a report stands for, given the frames that were asked for. */
  function Parsed(text: string, frames: seq<Frame>): Result<Trace, TraceError>
  {
    var p :- ReadLines(Progress([], None), Lines(text));
    if p.elapsed.None? then Err(NoDone)
    else if |p.samples| != |frames| then Err(WrongSampleCount)
    else if !Fits(frames, p.samples) then Err(WrongSample)
    else Ok(Trace(p.elapsed.value, p.samples))
  }

  lemma ReadOneMore(p: Progress, line: string, rest: seq<string>)
    ensures ReadLines(p, [line] + rest)
         == var next := ReadLine(p, line); if next.Ok? then ReadLines(next.value, rest) else Err(next.error)
  {
    assert ([line] + rest)[1..] == rest;
  }

  method ReadAll(lines: seq<string>) returns (r: Result<Progress, TraceError>)
    ensures r == ReadLines(Progress([], None), lines)
  {
    var p := Progress([], None);
    for k := 0 to |lines|
      invariant ReadLines(p, lines[k..]) == ReadLines(Progress([], None), lines)
    {
      assert lines[k..] == [lines[k]] + lines[k + 1..];
      ReadOneMore(p, lines[k], lines[k + 1..]);
      p :- ReadLine(p, lines[k]);
    }
    return Ok(p);
  }

  method CheckFrames(frames: seq<Frame>, samples: seq<Sample>) returns (ok: bool)
    requires |frames| == |samples|
    ensures ok <==> Fits(frames, samples)
  {
    for i := 0 to |frames|
      invariant forall j :: 0 <= j < i ==>
        frames[j].sequence == samples[j].sequence && frames[j].kind == samples[j].kind
    {
      if frames[i].sequence != samples[i].sequence || frames[i].kind != samples[i].kind { return false; }
    }
    return true;
  }

  method ParseTrace(text: string, frames: seq<Frame>) returns (r: Result<Trace, TraceError>)
    ensures r == Parsed(text, frames)
  {
    var read := ReadAll(Lines(text));
    if read.Err? { return Err(read.error); }
    var p := read.value;
    if p.elapsed.None? { return Err(NoDone); }
    if |p.samples| != |frames| { return Err(WrongSampleCount); }
    var ok := CheckFrames(frames, p.samples);
    return if ok then Ok(Trace(p.elapsed.value, p.samples)) else Err(WrongSample);
  }

  // ----- The two sides together

  lemma {:induction false} ParseUndoesWords(fields: seq<Field>)
    requires forall i :: 0 <= i < |fields| ==> '=' !in fields[i].name
    ensures ParseWords(WordsOf(fields)) == Ok(fields)
  {
    if fields != [] {
      SplitOnceAt(fields[0].name, '=', fields[0].value);
      assert WordsOf(fields)[1..] == WordsOf(fields[1..]);
      ParseUndoesWords(fields[1..]);
      assert [fields[0]] + fields[1..] == fields;
    }
  }

  /** The characters names and values are made of: neither a space nor an equals sign. */
  predicate PlainChar(c: char) { 'a' <= c <= 'z' || '0' <= c <= '9' || c == '_' || c == '-' }

  predicate PlainText(s: string) { forall i :: 0 <= i < |s| ==> PlainChar(s[i]) }

  /** A field that prints as one word and splits back. */
  predicate IsPlainField(f: Field) { PlainText(f.name) && PlainText(f.value) }

  lemma PlainFieldIsWord(f: Field)
    requires IsPlainField(f)
    ensures IsWord(Word(f)) && '=' !in f.name
  {
  }

  lemma FieldsRoundTrip(fields: seq<Field>)
    requires forall i :: 0 <= i < |fields| ==> IsPlainField(fields[i])
    ensures ParseFields(Spaced(WordsOf(fields))) == Ok(fields)
  {
    forall i | 0 <= i < |fields|
      ensures IsWord(WordsOf(fields)[i]) && '=' !in fields[i].name
    {
      PlainFieldIsWord(fields[i]);
    }
    SplitUndoesSpaced(WordsOf(fields));
    ParseUndoesWords(fields);
  }

  lemma DecimalIsPlain(n: nat)
    ensures PlainText(Decimal(n))
  {
    assert forall i :: 0 <= i < |Decimal(n)| ==> IsDigit(Decimal(n)[i]);
  }

  predicate InRange(s: Sample) { s.sequence <= U16_MAX && s.queueNs <= U64_MAX && s.encodeNs <= U64_MAX }

  lemma NamesArePlain()
    ensures PlainText("version") && PlainText("sequence") && PlainText("kind") && PlainText("queue_ns")
    ensures PlainText("encode_ns") && PlainText("delivered") && PlainText("elapsed_ns") && PlainText("samples")
    ensures PlainText("1") && PlainText("sparse") && PlainText("full-motion") && PlainText("true") && PlainText("false")
  {
  }

  lemma SampleFieldsArePlain(s: Sample)
    ensures forall i :: 0 <= i < 6 ==> IsPlainField(SampleFields(s)[i])
  {
    NamesArePlain();
    DecimalIsPlain(s.sequence);
    DecimalIsPlain(s.queueNs);
    DecimalIsPlain(s.encodeNs);
    var fields := SampleFields(s);
    assert IsPlainField(fields[0]) && IsPlainField(fields[1]) && IsPlainField(fields[2]);
    assert IsPlainField(fields[3]) && IsPlainField(fields[4]) && IsPlainField(fields[5]);
  }

  lemma {:induction false} OnlyValue(fields: seq<Field>, i: nat)
    requires i < |fields| && forall j :: 0 <= j < |fields| && j != i ==> fields[j].name != fields[i].name
    ensures ValuesOf(fields, fields[i].name) == [fields[i].value]
  {
    if i == 0 {
      NoValue(fields[1..], fields[0].name);
    } else {
      assert fields[0].name != fields[i].name;
      OnlyValue(fields[1..], i - 1);
    }
  }

  lemma {:induction false} NoValue(fields: seq<Field>, name: string)
    requires forall j :: 0 <= j < |fields| ==> fields[j].name != name
    ensures ValuesOf(fields, name) == []
  {
    if fields != [] { NoValue(fields[1..], name); }
  }

  lemma NameAt(fields: seq<Field>, i: nat, name: string, value: string)
    requires i < |fields| && fields[i] == Field(name, value)
    requires forall j :: 0 <= j < |fields| && j != i ==> fields[j].name != name
    ensures ValueOf(fields, name) == Ok(value)
  {
    OnlyValue(fields, i);
  }

  lemma ValuesOfSample(s: Sample)
    ensures var fields := SampleFields(s);
      && ValueOf(fields, "version") == Ok("1") && ValueOf(fields, "sequence") == Ok(Decimal(s.sequence))
      && ValueOf(fields, "kind") == Ok(KindToken(s.kind)) && ValueOf(fields, "queue_ns") == Ok(Decimal(s.queueNs))
      && ValueOf(fields, "encode_ns") == Ok(Decimal(s.encodeNs))
      && ValueOf(fields, "delivered") == Ok(BoolText(s.delivered))
  {
    var fields := SampleFields(s);
    assert fields[1].name[0] == 's' && fields[3].name[0] == 'q';
    assert fields[4].name[0] == 'e' && fields[5].name[0] == 'd';
    NameAt(fields, 0, "version", "1");
    NameAt(fields, 1, "sequence", Decimal(s.sequence));
    NameAt(fields, 2, "kind", KindToken(s.kind));
    NameAt(fields, 3, "queue_ns", Decimal(s.queueNs));
    NameAt(fields, 4, "encode_ns", Decimal(s.encodeNs));
    NameAt(fields, 5, "delivered", BoolText(s.delivered));
  }

  lemma TokensDiffer()
    ensures forall k :: ParseKind(KindToken(k)) == Ok(k)
    ensures forall b :: ParseBool(BoolText(b)) == Ok(b)
  {
    assert KindToken(FullMotion)[0] == 'f' && KindToken(Sparse)[0] == 's';
    assert BoolText(true)[0] == 't' && BoolText(false)[0] == 'f';
  }

  lemma SampleFromItsFields(s: Sample)
    ensures SampleFromFields(SampleFields(s)) == if InRange(s) then Ok(s) else Err(InvalidField)
  {
    ValuesOfSample(s);
    TokensDiffer();
    ParseDecimal(s.sequence, U16_MAX);
    ParseDecimal(s.queueNs, U64_MAX);
    ParseDecimal(s.encodeNs, U64_MAX);
  }

  /** A printed sample reads back exactly if its numbers fit their types. */
  lemma SampleRoundTrip(s: Sample)
    ensures ParseSample(Spaced(WordsOf(SampleFields(s)))) == if InRange(s) then Ok(s) else Err(InvalidField)
  {
    SampleFieldsArePlain(s);
    FieldsRoundTrip(SampleFields(s));
    SampleFromItsFields(s);
  }

  lemma DoneFromItsFields(elapsedNs: nat, samples: nat)
    requires samples <= U64_MAX
    ensures DoneFromFields(DoneFields(elapsedNs, samples), samples)
         == if elapsedNs <= U64_MAX then Ok(elapsedNs) else Err(InvalidField)
  {
    var fields := DoneFields(elapsedNs, samples);
    NameAt(fields, 0, "version", "1");
    NameAt(fields, 1, "elapsed_ns", Decimal(elapsedNs));
    NameAt(fields, 2, "samples", Decimal(samples));
    ParseDecimal(elapsedNs, U64_MAX);
    ParseDecimal(samples, U64_MAX);
  }

  lemma DoneFieldsArePlain(elapsedNs: nat, samples: nat)
    ensures forall i :: 0 <= i < 3 ==> IsPlainField(DoneFields(elapsedNs, samples)[i])
  {
    NamesArePlain();
    DecimalIsPlain(elapsedNs);
    DecimalIsPlain(samples);
  }

  lemma DoneRoundTrip(elapsedNs: nat, samples: nat)
    requires samples <= U64_MAX
    ensures ParseDone(Spaced(WordsOf(DoneFields(elapsedNs, samples))), samples)
         == if elapsedNs <= U64_MAX then Ok(elapsedNs) else Err(InvalidField)
  {
    DoneFieldsArePlain(elapsedNs, samples);
    FieldsRoundTrip(DoneFields(elapsedNs, samples));
    DoneFromItsFields(elapsedNs, samples);
  }

  predicate NoBreak(s: string) { '\n' !in s && '\r' !in s }

  lemma {:induction false} SpacedHasNoBreak(words: seq<string>)
    requires forall i :: 0 <= i < |words| ==> IsWord(words[i])
    ensures NoBreak(Spaced(words))
  {
    if words != [] {
      SpacedHasNoBreak(words[1..]);
      assert forall c :: c in words[0] ==> !IsSpace(c);
    }
  }

  lemma FieldsHaveNoBreak(fields: seq<Field>)
    requires forall i :: 0 <= i < |fields| ==> IsPlainField(fields[i])
    ensures NoBreak(Spaced(WordsOf(fields)))
  {
    forall i | 0 <= i < |fields|
      ensures IsWord(WordsOf(fields)[i])
    {
      PlainFieldIsWord(fields[i]);
    }
    SpacedHasNoBreak(WordsOf(fields));
  }

  lemma PrefixesHaveNoBreak()
    ensures NoBreak(SAMPLE_PREFIX) && NoBreak(DONE_PREFIX)
  {
  }

  lemma LinesArePlain(s: Sample, elapsedNs: nat, n: nat)
    ensures IsPlainLine(SampleLine(s)) && IsPlainLine(DoneLine(elapsedNs, n))
  {
    PrefixesHaveNoBreak();
    SampleFieldsArePlain(s);
    FieldsHaveNoBreak(SampleFields(s));
    DoneFieldsArePlain(elapsedNs, n);
    FieldsHaveNoBreak(DoneFields(elapsedNs, n));
  }

  lemma ReadSampleLine(acc: seq<Sample>, s: Sample)
    ensures ReadLine(Progress(acc, None), SampleLine(s))
         == if InRange(s) then Ok(Progress(acc + [s], None)) else Err(InvalidField)
  {
    var line := SampleLine(s);
    assert line != "" && SAMPLE_PREFIX <= line;
    assert line[|SAMPLE_PREFIX|..] == Spaced(WordsOf(SampleFields(s)));
    SampleRoundTrip(s);
  }

  lemma DoneIsNoSample(rest: string)
    ensures !(SAMPLE_PREFIX <= DONE_PREFIX + rest)
  {
    assert SAMPLE_PREFIX[20] == 'S' && DONE_PREFIX[20] == 'D';
    assert (DONE_PREFIX + rest)[20] == 'D';
  }

  lemma ReadDoneLine(acc: seq<Sample>, elapsedNs: nat)
    requires |acc| <= U64_MAX
    ensures ReadLine(Progress(acc, None), DoneLine(elapsedNs, |acc|))
         == if elapsedNs <= U64_MAX then Ok(Progress(acc, Some(elapsedNs))) else Err(InvalidField)
  {
    var rest := Spaced(WordsOf(DoneFields(elapsedNs, |acc|)));
    var line := DoneLine(elapsedNs, |acc|);
    DoneIsNoSample(rest);
    assert line != "" && DONE_PREFIX <= line && line[|DONE_PREFIX|..] == rest;
    DoneRoundTrip(elapsedNs, |acc|);
  }

  predicate AllInRange(samples: seq<Sample>) { forall i :: 0 <= i < |samples| ==> InRange(samples[i]) }

  lemma FirstSampleLine(s: Sample, samples: seq<Sample>, done: string)
    ensures SampleLines([s] + samples) + [done] == [SampleLine(s)] + (SampleLines(samples) + [done])
  {
    assert SampleLines([s] + samples) == [SampleLine(s)] + SampleLines(samples);
  }

  lemma ReadReportHead(acc: seq<Sample>, s: Sample, samples: seq<Sample>, done: string)
    ensures ReadLines(Progress(acc, None), SampleLines([s] + samples) + [done])
         == if InRange(s) then ReadLines(Progress(acc + [s], None), SampleLines(samples) + [done])
            else Err(InvalidField)
  {
    FirstSampleLine(s, samples, done);
    ReadSampleLine(acc, s);
    ReadOneMore(Progress(acc, None), SampleLine(s), SampleLines(samples) + [done]);
  }

  lemma ReadReportEnd(acc: seq<Sample>, elapsedNs: nat)
    requires |acc| <= U64_MAX
    ensures ReadLines(Progress(acc, None), [DoneLine(elapsedNs, |acc|)])
         == if elapsedNs <= U64_MAX then Ok(Progress(acc, Some(elapsedNs))) else Err(InvalidField)
  {
    ReadDoneLine(acc, elapsedNs);
    ReadOneMore(Progress(acc, None), DoneLine(elapsedNs, |acc|), []);
    assert [DoneLine(elapsedNs, |acc|)] + [] == [DoneLine(elapsedNs, |acc|)];
  }

  /** What reading the rest of a report gives, when `acc` has been read. */
  ghost function Outcome(acc: seq<Sample>, samples: seq<Sample>, elapsedNs: nat): Result<Progress, TraceError>
  {
    if AllInRange(samples) && elapsedNs <= U64_MAX then Ok(Progress(acc + samples, Some(elapsedNs)))
    else Err(InvalidField)
  }

  lemma OutcomeHead(acc: seq<Sample>, s: Sample, samples: seq<Sample>, elapsedNs: nat)
    ensures Outcome(acc, [s] + samples, elapsedNs)
         == if InRange(s) then Outcome(acc + [s], samples, elapsedNs) else Err(InvalidField)
  {
    assert acc + ([s] + samples) == (acc + [s]) + samples;
    assert forall i :: 0 <= i < |samples| ==> ([s] + samples)[i + 1] == samples[i];
    assert AllInRange([s] + samples) <==> InRange(([s] + samples)[0]) && AllInRange(samples);
  }

  lemma {:induction false} ReadReport(acc: seq<Sample>, samples: seq<Sample>, elapsedNs: nat, done: string)
    requires |acc| + |samples| <= U64_MAX && done == DoneLine(elapsedNs, |acc| + |samples|)
    ensures ReadLines(Progress(acc, None), SampleLines(samples) + [done]) == Outcome(acc, samples, elapsedNs)
    decreases |samples|
  {
    if samples == [] {
      ReadReportEnd(acc, elapsedNs);
      assert SampleLines(samples) + [done] == [done] && acc + samples == acc;
    } else {
      var s, rest := samples[0], samples[1..];
      assert samples == [s] + rest;
      ReadReportHead(acc, s, rest, done);
      OutcomeHead(acc, s, rest, elapsedNs);
      ReadReport(acc + [s], rest, elapsedNs, done);
    }
  }

  lemma ReportLines(t: Trace)
    ensures Lines(Report(t)) == SampleLines(t.samples) + [DoneLine(t.elapsedNs, |t.samples|)]
  {
    var lines := SampleLines(t.samples) + [DoneLine(t.elapsedNs, |t.samples|)];
    forall i | 0 <= i < |lines|
      ensures IsPlainLine(lines[i])
    {
      LinesArePlain(if i < |t.samples| then t.samples[i] else Sample(0, Sparse, 0, 0, true), t.elapsedNs, |t.samples|);
    }
    LinesUndoesUnlines(lines);
  }

  lemma ReadWholeReport(t: Trace)
    requires |t.samples| <= U64_MAX
    ensures ReadLines(Progress([], None), Lines(Report(t))) == Outcome([], t.samples, t.elapsedNs)
  {
    ReportLines(t);
    ReadReport([], t.samples, t.elapsedNs, DoneLine(t.elapsedNs, |t.samples|));
  }

  /** The parent accepts the child's report, with identical samples, exactly if every duration fits
      64 bits and the samples are those of the frames it asked for. */
  lemma TraceRoundTripIff(t: Trace, frames: seq<Frame>)
    requires |t.samples| <= U64_MAX
    ensures Parsed(Report(t), frames) == Ok(t) <==>
      (AllInRange(t.samples) && t.elapsedNs <= U64_MAX && Fits(frames, t.samples))
  {
    ReadWholeReport(t);
    assert [] + t.samples == t.samples;
  }

  // ----- The schedule

  lemma MulMonotone(a: nat, x: nat, y: nat)
    requires x <= y
    ensures a * x <= a * y
  {
    MulNonnegative(a, y - x);
    assert a * (y - x) == a * y - a * x;
  }

  lemma QuotientOfSum(a: nat, b: nat, n: nat)
    requires n > 0
    ensures a / n + b / n <= (a + b) / n <= a / n + b / n + 1
  {
    var p, q := a / n, b / n;
    var s, t := a - n * p, b - n * q;
    assert 0 <= s < n && 0 <= t < n;
    var k := if s + t < n then p + q else p + q + 1;
    assert n * (p + q) == n * p + n * q;
    assert n * (p + q + 1) == n * p + n * q + n;
    DivIs(a + b, n, k);
  }

  lemma QuotientBelow(w: nat, i: nat, n: nat)
    requires i < n && w > 0
    ensures w * i / n < w
  {
    MulMonotone(w, i + 1, n);
    var q := w * i / n;
    assert n * q <= w * i < w * (i + 1) <= n * w;
    if q >= w { MulMonotone(n, w, q); }
  }

  /** Consecutive samples are due a quotient apart, or one nanosecond more, and all within the window. */
  lemma OffsetsAreSpread(windowNs: nat, i: nat, n: nat)
    requires i < n && windowNs * n <= U128_MAX
    ensures Offset(windowNs, i, n) + windowNs / n <= Offset(windowNs, i + 1, n)
         <= Offset(windowNs, i, n) + windowNs / n + 1
    ensures windowNs > 0 ==> Offset(windowNs, i, n) < windowNs
    ensures n * Offset(windowNs, i, n) <= windowNs * i < n * Offset(windowNs, i, n) + n && Offset(windowNs, 0, n) == 0
  {
    MulMonotone(windowNs, i, n);
    MulMonotone(windowNs, i + 1, n);
    assert windowNs * (i + 1) == windowNs * i + windowNs;
    QuotientOfSum(windowNs * i, windowNs, n);
    if windowNs > 0 { QuotientBelow(windowNs, i, n); }
  }

  lemma RequestedScheduleFits(r: Request)
    requires InBounds(r)
    ensures ScheduleFits(OptionsOf(r))
  {
    var window, n := OptionsOf(r).windowNs, |r.frames|;
    forall i | 0 <= i < n
      ensures Offset(window, i, n) <= U64_MAX
    {
      MulMonotone(window, n, MAX_FRAMES);
      OffsetsAreSpread(window, i, n);
    }
  }

  lemma MeasuredSamplesFit(o: Options, outcomes: seq<Option<EncodeResult>>, queueNs: seq<nat>)
    requires |queueNs| == |o.frames| && |outcomes| == o.warmup + |o.frames| && AllEncoded(outcomes)
    requires forall i :: 0 <= i < |queueNs| ==> queueNs[i] <= U64_MAX
    requires forall i :: 0 <= i < |outcomes| ==> outcomes[i].value.encodeNs <= U64_MAX
    requires forall i :: 0 <= i < |o.frames| ==> o.frames[i].sequence <= U16_MAX
    ensures AllInRange(SamplesOf(o, outcomes, queueNs, |o.frames|))
    ensures Fits(o.frames, SamplesOf(o, outcomes, queueNs, |o.frames|))
  {
    var samples := SamplesOf(o, outcomes, queueNs, |o.frames|);
    assert forall i :: 0 <= i < |samples| ==>
      samples[i] == SampleAt(o, i, queueNs[i], outcomes[o.warmup + i].value);
  }

  // ----- The parent's bound on the child's output

  const MAX_CHILD_OUTPUT_BYTES: nat := 128 * 1024

  datatype ChildError = TooMuchOutput | BadTrace(error: TraceError)

  /** What the parent makes of the child's output: at most the bound, then a trace. */
  function Received(output: string, frames: seq<Frame>): Result<Trace, ChildError>
  {
    if |output| > MAX_CHILD_OUTPUT_BYTES then Err(TooMuchOutput)
    else match Parsed(output, frames) case Ok(trace) => Ok(trace) case Err(error) => Err(BadTrace(error))
  }

  lemma {:induction false} SpacedAtMost(words: seq<string>, m: nat)
    requires forall i :: 0 <= i < |words| ==> |words[i]| <= m
    ensures |Spaced(words)| <= |words| * (m + 1)
  {
    if words != [] {
      SpacedAtMost(words[1..], m);
      assert |words| * (m + 1) == |words[1..]| * (m + 1) + (m + 1);
    }
  }

  lemma {:induction false} UnlinesAtMost(lines: seq<string>, m: nat)
    requires forall i :: 0 <= i < |lines| ==> |lines[i]| <= m
    ensures |Unlines(lines)| <= |lines| * (m + 1)
  {
    if lines != [] {
      UnlinesAtMost(lines[1..], m);
      assert |lines| * (m + 1) == |lines[1..]| * (m + 1) + (m + 1);
    }
  }

  lemma DecimalFits(n: nat)
    requires n <= U64_MAX
    ensures |Decimal(n)| <= 20
  {
    PowersOfTen();
    DecimalLength(n, 20);
  }

  lemma SampleLineFits(s: Sample)
    requires InRange(s)
    ensures |SampleLine(s)| <= 212
  {
    DecimalFits(s.sequence);
    DecimalFits(s.queueNs);
    DecimalFits(s.encodeNs);
    var fields := SampleFields(s);
    assert |Word(fields[0])| <= 30 && |Word(fields[1])| <= 30 && |Word(fields[2])| <= 30;
    assert |Word(fields[3])| <= 30 && |Word(fields[4])| <= 30 && |Word(fields[5])| <= 30;
    SpacedAtMost(WordsOf(fields), 30);
  }

  lemma DoneLineFits(elapsedNs: nat, samples: nat)
    requires elapsedNs <= U64_MAX && samples <= U64_MAX
    ensures |DoneLine(elapsedNs, samples)| <= 212
  {
    DecimalFits(elapsedNs);
    DecimalFits(samples);
    var fields := DoneFields(elapsedNs, samples);
    assert |Word(fields[0])| <= 31 && |Word(fields[1])| <= 31 && |Word(fields[2])| <= 31;
    SpacedAtMost(WordsOf(fields), 31);
  }

  /** No report of an in-bounds number of samples exceeds the parent's bound. */
  lemma ReportFits(t: Trace)
    requires AllInRange(t.samples) && t.elapsedNs <= U64_MAX && |t.samples| <= MAX_FRAMES
    ensures |Report(t)| <= MAX_CHILD_OUTPUT_BYTES
  {
    var lines := SampleLines(t.samples) + [DoneLine(t.elapsedNs, |t.samples|)];
    forall i | 0 <= i < |lines|
      ensures |lines[i]| <= 212
    {
      if i < |t.samples| { SampleLineFits(t.samples[i]); } else { DoneLineFits(t.elapsedNs, |t.samples|); }
    }
    UnlinesAtMost(lines, 212);
  }

  // ----- The whole protocol

  /** Every request the parent may send: the child recovers it, its schedule fits, and whatever the
      encoder and the clock do within 64 bits, the report it prints stays within the parent's
      bound and is accepted with the samples it measured. */
  lemma ProtocolRoundTrip(r: Request, outcomes: seq<Option<EncodeResult>>, queueNs: seq<nat>, elapsedNs: nat)
    requires WellTyped(r) && InBounds(r) && OneSparseRatio(r.frames) && Expressible(r.frames)
    requires |queueNs| == |r.frames| && |outcomes| == r.warmup + |r.frames| && AllEncoded(outcomes)
    requires elapsedNs <= U64_MAX && forall i :: 0 <= i < |queueNs| ==> queueNs[i] <= U64_MAX
    requires forall i :: 0 <= i < |outcomes| ==> outcomes[i].value.encodeNs <= U64_MAX
    ensures ProbeArgs(r).Ok? && OptionsFromArgs(ProbeArgs(r).value) == Ok(Some(OptionsOf(r)))
    ensures ScheduleFits(OptionsOf(r))
    ensures var trace := Trace(elapsedNs, SamplesOf(OptionsOf(r), outcomes, queueNs, |r.frames|));
      Received(Report(trace), r.frames) == Ok(trace)
  {
    RequestRoundTripIff(r);
    RequestedScheduleFits(r);
    var o := OptionsOf(r);
    MeasuredSamplesFit(o, outcomes, queueNs);
    var trace := Trace(elapsedNs, SamplesOf(o, outcomes, queueNs, |r.frames|));
    TraceRoundTripIff(trace, r.frames);
    ReportFits(trace);
  }

  // ----- What the parent accepts at all

  /** A field has a value exactly if one field, and only one, has its name. */
  lemma ValueOfIff(fields: seq<Field>, name: string, value: string)
    ensures ValueOf(fields, name) == Ok(value) <==> exists i: nat :: OnlyNamed(fields, i, name, value)
  {
    if ValueOf(fields, name) == Ok(value) {
      var i := PlaceOfValue(fields, name);
      assert OnlyNamed(fields, i, name, value);
    }
    if i: nat :| OnlyNamed(fields, i, name, value) {
      NameAt(fields, i, name, value);
    }
  }

  predicate OnlyNamed(fields: seq<Field>, i: nat, name: string, value: string)
  {
    && i < |fields| && fields[i] == Field(name, value)
    && forall j :: 0 <= j < |fields| && j != i ==> fields[j].name != name
  }

  lemma {:induction false} NoneNamed(fields: seq<Field>, name: string)
    requires ValuesOf(fields, name) == []
    ensures forall j :: 0 <= j < |fields| ==> fields[j].name != name
  {
    if fields != [] {
      NoneNamed(fields[1..], name);
      assert forall j :: 1 <= j < |fields| ==> fields[j] == fields[1..][j - 1];
    }
  }

  lemma {:induction false} PlaceOfValue(fields: seq<Field>, name: string) returns (i: nat)
    requires |ValuesOf(fields, name)| == 1
    ensures i < |fields| && fields[i] == Field(name, ValuesOf(fields, name)[0])
    ensures forall j :: 0 <= j < |fields| && j != i ==> fields[j].name != name
  {
    assert forall j :: 1 <= j < |fields| ==> fields[j] == fields[1..][j - 1];
    if fields[0].name == name {
      NoneNamed(fields[1..], name);
      i := 0;
    } else {
      var k := PlaceOfValue(fields[1..], name);
      i := k + 1;
    }
  }

  lemma {:induction false} NothingAfterDone(p: Progress, lines: seq<string>)
    requires p.elapsed.Some? && ReadLines(p, lines).Ok?
    ensures ReadLines(p, lines) == Ok(p) && forall i :: 0 <= i < |lines| ==> lines[i] == ""
    decreases |lines|
  {
    if lines != [] {
      NothingAfterDone(p, lines[1..]);
      assert forall i :: 1 <= i < |lines| ==> lines[i] == lines[1..][i - 1];
    }
  }

  /** The samples on the lines of a report, blank lines aside. */
  function SamplesOn(lines: seq<string>): Result<seq<Sample>, TraceError>
  {
    if lines == [] then Ok([])
    else if lines[0] == "" then SamplesOn(lines[1..])
    else if !(SAMPLE_PREFIX <= lines[0]) then Err(UnknownLine)
    else
      var sample :- ParseSample(lines[0][|SAMPLE_PREFIX|..]);
      var rest :- SamplesOn(lines[1..]);
      Ok([sample] + rest)
  }

  /** A line ends the report: only samples before it, only blank lines after it, and it says how
      many samples there were. */
  ghost predicate EndsAt(lines: seq<string>, d: nat, samples: seq<Sample>, before: nat, elapsedNs: nat)
  {
    && d < |lines| && SamplesOn(lines[..d]) == Ok(samples)
    && !(SAMPLE_PREFIX <= lines[d]) && DONE_PREFIX <= lines[d]
    && ParseDone(lines[d][|DONE_PREFIX|..], before + |samples|) == Ok(elapsedNs)
    && forall i :: d < i < |lines| ==> lines[i] == ""
  }

  lemma SamplesOnOneMore(line: string, lines: seq<string>)
    ensures line == "" ==> SamplesOn([line] + lines) == SamplesOn(lines)
    ensures SAMPLE_PREFIX <= line && ParseSample(line[|SAMPLE_PREFIX|..]).Ok? && SamplesOn(lines).Ok? ==>
      SamplesOn([line] + lines) == Ok([ParseSample(line[|SAMPLE_PREFIX|..]).value] + SamplesOn(lines).value)
  {
    assert ([line] + lines)[0] == line && ([line] + lines)[1..] == lines;
  }

  /** A line in front of a report: its own sample, if it is not blank, comes first. */
  lemma EndsAtEarlier(line: string, rest: seq<string>, d: nat, samples: seq<Sample>, n: nat, m: nat, all: seq<Sample>,
                      elapsedNs: nat)
    requires EndsAt(rest, d, samples, m, elapsedNs)
    requires SamplesOn([line] + rest[..d]) == Ok(all) && n + |all| == m + |samples|
    ensures EndsAt([line] + rest, d + 1, all, n, elapsedNs)
  {
    var lines := [line] + rest;
    assert lines[..d + 1] == [line] + rest[..d] && lines[d + 1] == rest[d];
    assert forall i :: 0 < i < |lines| ==> lines[i] == rest[i - 1];
  }

  lemma {:induction false} ShapeOfReport(p: Progress, lines: seq<string>) returns (d: nat, samples: seq<Sample>)
    requires p.elapsed.None? && ReadLines(p, lines).Ok? && ReadLines(p, lines).value.elapsed.Some?
    ensures ReadLines(p, lines).value.samples == p.samples + samples
    ensures EndsAt(lines, d, samples, |p.samples|, ReadLines(p, lines).value.elapsed.value)
    decreases |lines|
  {
    var line, rest := lines[0], lines[1..];
    assert lines == [line] + rest;
    var next := ReadLine(p, line).value;
    if next.elapsed.Some? {
      NothingAfterDone(next, rest);
      d, samples := 0, [];
      assert p.samples + [] == p.samples && lines[..0] == [];
      assert forall i :: 0 < i < |lines| ==> lines[i] == rest[i - 1];
    } else {
      var e, more := ShapeOfReport(next, rest);
      var elapsedNs := ReadLines(p, lines).value.elapsed.value;
      SamplesOnOneMore(line, rest[..e]);
      if line == "" {
        samples := more;
      } else {
        var sample := ParseSample(line[|SAMPLE_PREFIX|..]).value;
        samples := [sample] + more;
        ConcatAssociates(p.samples, sample, more);
      }
      EndsAtEarlier(line, rest, e, more, |p.samples|, |next.samples|, samples, elapsedNs);
      d := e + 1;
    }
  }

  lemma ConcatAssociates(a: seq<Sample>, s: Sample, b: seq<Sample>)
    ensures (a + [s]) + b == a + ([s] + b)
  {
  }

  /** The parent accepts nothing else: one sample line per frame it asked for, each with that frame's
      sequence number and kind, then one completion that counts them, and blank lines. */
  lemma AcceptedReport(text: string, frames: seq<Frame>, t: Trace) returns (d: nat)
    requires Parsed(text, frames) == Ok(t)
    ensures EndsAt(Lines(text), d, t.samples, 0, t.elapsedNs)
    ensures |t.samples| == |frames| && forall i :: 0 <= i < |frames| ==>
      t.samples[i].sequence == frames[i].sequence && t.samples[i].kind == frames[i].kind
  {
    var samples;
    d, samples := ShapeOfReport(Progress([], None), Lines(text));
    assert [] + samples == samples;
  }
}
