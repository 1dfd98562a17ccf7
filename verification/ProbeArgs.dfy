/** The arguments of an admission-probe child: what the parent writes and what the child reads. */
module ProbeArguments {
  import opened Wrappers
  import opened Text

  const U16_MAX: nat := 0xFFFF
  const U32_MAX: nat := 0xFFFF_FFFF
  const U64_MAX: nat := 0xFFFF_FFFF_FFFF_FFFF
  const FULL: nat := 10_000
  const MAX_FRAMES: nat := 600
  const MAX_WARMUP: nat := 64
  const MAX_WINDOW_NS: nat := 60_000_000_000

  datatype Kind = Sparse | FullMotion

  datatype Frame = Frame(sequence: nat, kind: Kind, dirty: nat)

  datatype Request = Request(width: nat, height: nat, windowNs: nat, warmup: nat, frames: seq<Frame>)

  /** The ranges of the fields' types. */
  predicate WellTyped(r: Request)
  {
    && r.width <= U32_MAX && r.height <= U32_MAX && r.warmup <= U16_MAX
    && forall i :: 0 <= i < |r.frames| ==> r.frames[i].sequence <= U16_MAX && r.frames[i].dirty <= FULL
  }

  const VERSION: string := "admission-v1"
  const GEOMETRY: string := "probe-geometry="
  const WINDOW: string := "probe-window-ns="
  const WARMUP: string := "probe-warmup="
  const PATTERN: string := "probe-pattern="
  const DIRTY: string := "probe-dirty-bps="

  // ----- The parent's side

  function Token(kind: Kind): char { if kind.Sparse? then 's' else 'm' }

  function PatternOf(frames: seq<Frame>): (s: string)
    ensures |s| == |frames|
  {
    seq(|frames|, i requires 0 <= i < |frames| => Token(frames[i].kind))
  }

  /** The first sparse frame's ratio, 0 if there is none. */
  function SparseRatio(frames: seq<Frame>): nat
  {
    if frames == [] then 0 else if frames[0].kind.Sparse? then frames[0].dirty else SparseRatio(frames[1..])
  }

  predicate OneSparseRatio(frames: seq<Frame>)
  {
    forall i :: 0 <= i < |frames| && frames[i].kind.Sparse? ==> frames[i].dirty == SparseRatio(frames)
  }

  datatype RequestError = WindowTooLong | SeveralSparseRatios

  function ProbeArgs(r: Request): Result<seq<string>, RequestError>
  {
    if r.windowNs > U64_MAX then Err(WindowTooLong)
    else if !OneSparseRatio(r.frames) then Err(SeveralSparseRatios)
    else
      Ok([VERSION,
          GEOMETRY + (Decimal(r.width) + "x" + Decimal(r.height)),
          WINDOW + Decimal(r.windowNs),
          WARMUP + Decimal(r.warmup),
          PATTERN + PatternOf(r.frames),
          DIRTY + Decimal(SparseRatio(r.frames))])
  }

  // ----- The child's side

  datatype Options = Options(width: nat, height: nat, windowNs: nat, warmup: nat, frames: seq<Frame>)

  datatype ArgError = Missing(prefix: string) | Duplicate(prefix: string) | Invalid | OutOfBounds

  function Matches(args: seq<string>, prefix: string): seq<string>
  {
    if args == [] then []
    else
      var rest := Matches(args[1..], prefix);
      match StripPrefix(args[0], prefix) case Some(value) => [value] + rest case None => rest
  }

  function RequiredValue(args: seq<string>, prefix: string): Result<string, ArgError>
  {
    var values := Matches(args, prefix);
    if values == [] then Err(Missing(prefix))
    else if |values| > 1 then Err(Duplicate(prefix))
    else Ok(values[0])
  }

  function ParseValue(s: string, max: nat): Result<nat, ArgError>
  {
    match ParseUnsigned(s, max) case Some(n) => Ok(n) case None => Err(Invalid)
  }

  function ParseGeometry(s: string): Result<(nat, nat), ArgError>
  {
    match SplitOnce(s, 'x')
    case None => Err(Invalid)
    case Some((w, h)) =>
      var width :- ParseValue(w, U32_MAX);
      var height :- ParseValue(h, U32_MAX);
      Ok((width, height))
  }

  /** The frames a pattern stands for, the first having sequence number `index`. */
  function ParsePattern(pattern: string, dirty: nat, index: nat): Result<seq<Frame>, ArgError>
  {
    if pattern == "" then Ok([])
    else if pattern[0] != 's' && pattern[0] != 'm' then Err(Invalid)
    else if index > U16_MAX then Err(Invalid)
    else
      var kind := if pattern[0] == 's' then Sparse else FullMotion;
      var rest :- ParsePattern(pattern[1..], dirty, index + 1);
      Ok([Frame(index, kind, if kind.FullMotion? then FULL else dirty)] + rest)
  }

  datatype Sizes = Sizes(width: nat, height: nat, windowNs: nat, warmup: nat)

  function SizesFromArgs(args: seq<string>): Result<Sizes, ArgError>
  {
    var geometryText :- RequiredValue(args, GEOMETRY);
    var geometry :- ParseGeometry(geometryText);
    if geometry.0 == 0 || geometry.1 == 0 then Err(OutOfBounds)
    else
      var windowText :- RequiredValue(args, WINDOW);
      var windowNs :- ParseValue(windowText, U64_MAX);
      if windowNs == 0 || windowNs > MAX_WINDOW_NS then Err(OutOfBounds)
      else
        var warmupText :- RequiredValue(args, WARMUP);
        var warmup :- ParseValue(warmupText, U16_MAX);
        if warmup > MAX_WARMUP then Err(OutOfBounds)
        else Ok(Sizes(geometry.0, geometry.1, windowNs, warmup))
  }

  function FramesFromArgs(args: seq<string>): Result<seq<Frame>, ArgError>
  {
    var pattern :- RequiredValue(args, PATTERN);
    if pattern == "" || |pattern| > MAX_FRAMES then Err(OutOfBounds)
    else
      var dirtyText :- RequiredValue(args, DIRTY);
      var dirty :- ParseValue(dirtyText, U16_MAX);
      if dirty > FULL then Err(OutOfBounds) else ParsePattern(pattern, dirty, 0)
  }

  function OptionsFromArgs(args: seq<string>): Result<Option<Options>, ArgError>
  {
    if VERSION !in args then Ok(None)
    else
      var sizes :- SizesFromArgs(args);
      var frames :- FramesFromArgs(args);
      Ok(Some(Options(sizes.width, sizes.height, sizes.windowNs, sizes.warmup, frames)))
  }

  // ----- The two sides together

  predicate InBounds(r: Request)
  {
    && r.width > 0 && r.height > 0 && 0 < r.windowNs <= MAX_WINDOW_NS
    && r.warmup <= MAX_WARMUP && 1 <= |r.frames| <= MAX_FRAMES
  }

  /** Numbered from 0, and motion frames fully dirty: what a pattern can express. */
  predicate Expressible(frames: seq<Frame>)
  {
    forall i :: 0 <= i < |frames| ==>
      frames[i].sequence == i && (frames[i].kind.FullMotion? ==> frames[i].dirty == FULL)
  }

  lemma Mismatch(p: string, q: string, value: string, k: nat)
    requires k < |p| && k < |q| && p[k] != q[k]
    ensures StripPrefix(q + value, p) == None
  {
    assert (q + value)[k] == q[k];
  }

  lemma Match(p: string, value: string)
    ensures StripPrefix(p + value, p) == Some(value)
  {
    assert (p + value)[|p|..] == value;
  }

  const PREFIXES: seq<string> := [GEOMETRY, WINDOW, WARMUP, PATTERN, DIRTY]

  /** No argument of one kind can be taken for another. */
  lemma PrefixesDiffer(i: nat, j: nat, value: string)
    requires i < 5 && j < 5 && i != j
    ensures StripPrefix(PREFIXES[j] + value, PREFIXES[i]) == None
    ensures StripPrefix(VERSION, PREFIXES[i]) == None
  {
    assert GEOMETRY[6] == 'g' && WINDOW[6] == 'w' && WARMUP[6] == 'w' && PATTERN[6] == 'p' && DIRTY[6] == 'd';
    assert WINDOW[7] == 'i' && WARMUP[7] == 'a';
    Mismatch(PREFIXES[i], PREFIXES[j], value, if (i == 1 && j == 2) || (i == 2 && j == 1) then 7 else 6);
    assert PREFIXES[i][0] == 'p' && VERSION[0] == 'a';
  }

  lemma {:induction false} OnlyMatch(args: seq<string>, prefix: string, i: nat, value: string)
    requires i < |args| && StripPrefix(args[i], prefix) == Some(value)
    requires forall j :: 0 <= j < |args| && j != i ==> StripPrefix(args[j], prefix) == None
    ensures Matches(args, prefix) == [value]
  {
    if i == 0 {
      NoMatch(args[1..], prefix);
    } else {
      assert StripPrefix(args[0], prefix) == None;
      OnlyMatch(args[1..], prefix, i - 1, value);
    }
  }

  lemma {:induction false} NoMatch(args: seq<string>, prefix: string)
    requires forall j :: 0 <= j < |args| ==> StripPrefix(args[j], prefix) == None
    ensures Matches(args, prefix) == []
  {
    if args != [] { NoMatch(args[1..], prefix); }
  }

  /** An argument list with one value of each kind gives each value back. */
  lemma EachValueIsFound(args: seq<string>, values: seq<string>, i: nat)
    requires |values| == 5 && i < 5
    requires |args| == 6 && args[0] == VERSION && forall j :: 0 <= j < 5 ==> args[j + 1] == PREFIXES[j] + values[j]
    ensures RequiredValue(args, PREFIXES[i]) == Ok(values[i])
  {
    forall j | 0 <= j < 6 && j != i + 1
      ensures StripPrefix(args[j], PREFIXES[i]) == None
    {
      if j > 0 {
        PrefixesDiffer(i, j - 1, values[j - 1]);
      } else {
        PrefixesDiffer(i, if i == 0 then 1 else 0, "");
      }
    }
    Match(PREFIXES[i], values[i]);
    OnlyMatch(args, PREFIXES[i], i + 1, values[i]);
  }

  lemma GeometryRoundTrip(width: nat, height: nat)
    requires width <= U32_MAX && height <= U32_MAX
    ensures ParseGeometry(Decimal(width) + "x" + Decimal(height)) == Ok((width, height))
  {
    var w, h := Decimal(width), Decimal(height);
    assert 'x' !in w;
    SplitOnceAt(w, 'x', h);
    ParseDecimal(width, U32_MAX);
    ParseDecimal(height, U32_MAX);
  }

  /** Each frame as the child numbers and fills it in. */
  function Canonical(frames: seq<Frame>, dirty: nat, index: nat): seq<Frame>
  {
    seq(|frames|, i requires 0 <= i < |frames| =>
      Frame(index + i, frames[i].kind, if frames[i].kind.FullMotion? then FULL else dirty))
  }

  lemma {:induction false} PatternRoundTrip(frames: seq<Frame>, dirty: nat, index: nat)
    requires index + |frames| <= U16_MAX + 1
    ensures ParsePattern(PatternOf(frames), dirty, index) == Ok(Canonical(frames, dirty, index))
  {
    if frames != [] {
      assert PatternOf(frames)[1..] == PatternOf(frames[1..]);
      PatternRoundTrip(frames[1..], dirty, index + 1);
      assert Canonical(frames, dirty, index)
          == [Canonical(frames, dirty, index)[0]] + Canonical(frames[1..], dirty, index + 1);
    } else {
      assert PatternOf(frames) == "" && Canonical(frames, dirty, index) == [];
    }
  }

  lemma CanonicalIffExpressible(frames: seq<Frame>)
    requires OneSparseRatio(frames)
    ensures Canonical(frames, SparseRatio(frames), 0) == frames <==> Expressible(frames)
  {
    if Canonical(frames, SparseRatio(frames), 0) == frames {
      forall i | 0 <= i < |frames|
        ensures frames[i].sequence == i && (frames[i].kind.FullMotion? ==> frames[i].dirty == FULL)
      {
        assert frames[i] == Canonical(frames, SparseRatio(frames), 0)[i];
      }
    }
  }

  lemma {:induction false} SparseRatioInRange(frames: seq<Frame>)
    requires forall i :: 0 <= i < |frames| ==> frames[i].dirty <= FULL
    ensures SparseRatio(frames) <= FULL
  {
    if frames != [] { SparseRatioInRange(frames[1..]); }
  }

  lemma ValuesOfArgs(r: Request)
    requires ProbeArgs(r).Ok?
    ensures var args := ProbeArgs(r).value;
      && VERSION in args
      && RequiredValue(args, GEOMETRY) == Ok(Decimal(r.width) + "x" + Decimal(r.height))
      && RequiredValue(args, WINDOW) == Ok(Decimal(r.windowNs))
      && RequiredValue(args, WARMUP) == Ok(Decimal(r.warmup))
      && RequiredValue(args, PATTERN) == Ok(PatternOf(r.frames))
      && RequiredValue(args, DIRTY) == Ok(Decimal(SparseRatio(r.frames)))
  {
    var args := ProbeArgs(r).value;
    var values := [Decimal(r.width) + "x" + Decimal(r.height), Decimal(r.windowNs), Decimal(r.warmup),
                   PatternOf(r.frames), Decimal(SparseRatio(r.frames))];
    assert args[0] == VERSION;
    assert forall j :: 0 <= j < 5 ==> args[j + 1] == PREFIXES[j] + values[j];
    EachValueIsFound(args, values, 0);
    EachValueIsFound(args, values, 1);
    EachValueIsFound(args, values, 2);
    EachValueIsFound(args, values, 3);
    EachValueIsFound(args, values, 4);
  }

  lemma NumbersOfArgs(r: Request)
    requires WellTyped(r) && r.windowNs <= U64_MAX
    ensures ParseGeometry(Decimal(r.width) + "x" + Decimal(r.height)) == Ok((r.width, r.height))
    ensures ParseValue(Decimal(r.windowNs), U64_MAX) == Ok(r.windowNs)
    ensures ParseValue(Decimal(r.warmup), U16_MAX) == Ok(r.warmup)
    ensures SparseRatio(r.frames) <= FULL
    ensures ParseValue(Decimal(SparseRatio(r.frames)), U16_MAX) == Ok(SparseRatio(r.frames))
  {
    GeometryRoundTrip(r.width, r.height);
    ParseDecimal(r.windowNs, U64_MAX);
    ParseDecimal(r.warmup, U16_MAX);
    SparseRatioInRange(r.frames);
    ParseDecimal(SparseRatio(r.frames), U16_MAX);
  }

  predicate SizesInBounds(r: Request)
  {
    r.width > 0 && r.height > 0 && 0 < r.windowNs <= MAX_WINDOW_NS && r.warmup <= MAX_WARMUP
  }

  lemma ChildReadsSizes(r: Request)
    requires WellTyped(r) && ProbeArgs(r).Ok?
    ensures SizesFromArgs(ProbeArgs(r).value) ==
      if SizesInBounds(r) then Ok(Sizes(r.width, r.height, r.windowNs, r.warmup)) else Err(OutOfBounds)
  {
    ValuesOfArgs(r);
    NumbersOfArgs(r);
  }

  lemma ChildReadsFrames(r: Request)
    requires WellTyped(r) && ProbeArgs(r).Ok?
    ensures FramesFromArgs(ProbeArgs(r).value) ==
      if 1 <= |r.frames| <= MAX_FRAMES then Ok(Canonical(r.frames, SparseRatio(r.frames), 0)) else Err(OutOfBounds)
  {
    ValuesOfArgs(r);
    NumbersOfArgs(r);
    if |r.frames| <= MAX_FRAMES { PatternRoundTrip(r.frames, SparseRatio(r.frames), 0); }
  }

  lemma OptionsOfParts(args: seq<string>)
    requires VERSION in args
    ensures SizesFromArgs(args).Err? ==> OptionsFromArgs(args) == Err(SizesFromArgs(args).error)
    ensures SizesFromArgs(args).Ok? && FramesFromArgs(args).Err? ==>
      OptionsFromArgs(args) == Err(FramesFromArgs(args).error)
    ensures SizesFromArgs(args).Ok? && FramesFromArgs(args).Ok? ==>
      var s := SizesFromArgs(args).value;
      OptionsFromArgs(args) == Ok(Some(Options(s.width, s.height, s.windowNs, s.warmup, FramesFromArgs(args).value)))
  {
  }

  /** What the child makes of the parent's arguments: the request's bounds are enforced again, and
      the frames come back numbered from 0 with motion frames fully dirty. */
  lemma ChildReadsParent(r: Request)
    requires WellTyped(r) && ProbeArgs(r).Ok?
    ensures OptionsFromArgs(ProbeArgs(r).value) ==
      if InBounds(r)
      then Ok(Some(Options(r.width, r.height, r.windowNs, r.warmup, Canonical(r.frames, SparseRatio(r.frames), 0))))
      else Err(OutOfBounds)
  {
    assert ProbeArgs(r).value[0] == VERSION;
    OptionsOfParts(ProbeArgs(r).value);
    ChildReadsSizes(r);
    ChildReadsFrames(r);
  }

  function OptionsOf(r: Request): Options { Options(r.width, r.height, r.windowNs, r.warmup, r.frames) }

  /** The request survives the trip through the arguments exactly if it is in bounds, has one
      sparse ratio, numbers its frames from 0 and has motion frames fully dirty. */
  lemma RequestRoundTripIff(r: Request)
    requires WellTyped(r)
    ensures (ProbeArgs(r).Ok? && OptionsFromArgs(ProbeArgs(r).value) == Ok(Some(OptionsOf(r))))
       <==> (InBounds(r) && OneSparseRatio(r.frames) && Expressible(r.frames))
  {
    if ProbeArgs(r).Ok? {
      ChildReadsParent(r);
      CanonicalIffExpressible(r.frames);
    }
  }

  // ----- What the child accepts at all

  /** Argument `i`, and no other, starts with the prefix. */
  predicate OnlyAt(args: seq<string>, prefix: string, i: nat)
  {
    i < |args| && prefix <= args[i] && forall j :: 0 <= j < |args| && j != i ==> !(prefix <= args[j])
  }

  lemma {:induction false} NoMatches(args: seq<string>, prefix: string)
    requires Matches(args, prefix) == []
    ensures forall j :: 0 <= j < |args| ==> !(prefix <= args[j])
  {
    if args != [] {
      NoMatches(args[1..], prefix);
      assert forall j :: 1 <= j < |args| ==> args[j] == args[1..][j - 1];
    }
  }

  lemma {:induction false} OneMatch(args: seq<string>, prefix: string) returns (i: nat)
    requires |Matches(args, prefix)| == 1
    ensures OnlyAt(args, prefix, i) && Matches(args, prefix)[0] == args[i][|prefix|..]
  {
    assert forall j :: 1 <= j < |args| ==> args[j] == args[1..][j - 1];
    if prefix <= args[0] {
      NoMatches(args[1..], prefix);
      i := 0;
    } else {
      var k := OneMatch(args[1..], prefix);
      i := k + 1;
    }
  }

  /** A value is found exactly if one argument, and only one, has the prefix. */
  lemma RequiredValueIff(args: seq<string>, prefix: string, value: string)
    ensures RequiredValue(args, prefix) == Ok(value) <==>
      exists i: nat :: OnlyAt(args, prefix, i) && args[i][|prefix|..] == value
  {
    if RequiredValue(args, prefix).Ok? {
      var i := OneMatch(args, prefix);
      forall j: nat | OnlyAt(args, prefix, j)
        ensures j == i
      {
        assert prefix <= args[i];
      }
    }
    if i: nat :| OnlyAt(args, prefix, i) && args[i][|prefix|..] == value {
      MatchesOnly(args, prefix, i);
    }
  }

  lemma {:induction false} MatchesOnly(args: seq<string>, prefix: string, i: nat)
    requires OnlyAt(args, prefix, i)
    ensures Matches(args, prefix) == [args[i][|prefix|..]]
  {
    assert forall j :: 1 <= j < |args| ==> args[j] == args[1..][j - 1];
    if i == 0 {
      NoneMatch(args[1..], prefix);
    } else {
      assert !(prefix <= args[0]);
      MatchesOnly(args[1..], prefix, i - 1);
    }
  }

  lemma {:induction false} NoneMatch(args: seq<string>, prefix: string)
    requires forall j :: 0 <= j < |args| ==> !(prefix <= args[j])
    ensures Matches(args, prefix) == []
  {
    if args != [] { NoneMatch(args[1..], prefix); }
  }

  lemma {:induction false} PatternFrames(pattern: string, dirty: nat, index: nat, i: nat)
    requires ParsePattern(pattern, dirty, index).Ok? && i < |pattern|
    ensures var frames := ParsePattern(pattern, dirty, index).value;
      && |frames| == |pattern| && (pattern[i] == 's' || pattern[i] == 'm')
      && frames[i] ==
         if pattern[i] == 's' then Frame(index + i, Sparse, dirty) else Frame(index + i, FullMotion, 10_000)
  {
    if i > 0 { PatternFrames(pattern[1..], dirty, index + 1, i - 1); }
    else if |pattern| > 1 { PatternFrames(pattern[1..], dirty, index + 1, 0); }
  }

  /** The frames are those of the letters: numbered from 0, a sparse one with the given ratio, a motion
      one fully dirty. */
  predicate SpeltBy(frames: seq<Frame>, pattern: string, dirty: nat)
  {
    |frames| == |pattern| && forall k: nat :: k < |frames| ==>
      && (pattern[k] == 's' || pattern[k] == 'm')
      && frames[k] == if pattern[k] == 's' then Frame(k, Sparse, dirty) else Frame(k, FullMotion, 10_000)
  }

  lemma PatternIsSpelt(pattern: string, dirty: nat)
    requires ParsePattern(pattern, dirty, 0).Ok? && pattern != ""
    ensures SpeltBy(ParsePattern(pattern, dirty, 0).value, pattern, dirty)
  {
    forall k: nat | k < |pattern|
      ensures var frames := ParsePattern(pattern, dirty, 0).value;
        && |frames| == |pattern| && (pattern[k] == 's' || pattern[k] == 'm')
        && frames[k] == if pattern[k] == 's' then Frame(k, Sparse, dirty) else Frame(k, FullMotion, 10_000)
    {
      PatternFrames(pattern, dirty, 0, k);
    }
    PatternFrames(pattern, dirty, 0, 0);
  }

  lemma AcceptedSizes(args: seq<string>, s: Sizes)
    requires SizesFromArgs(args) == Ok(s)
    ensures s.width > 0 && s.height > 0 && 0 < s.windowNs <= 60_000_000_000 && s.warmup <= 64
    ensures RequiredValue(args, WINDOW).Ok?
      && ParseUnsigned(RequiredValue(args, WINDOW).value, U64_MAX) == Some(s.windowNs)
    ensures RequiredValue(args, WARMUP).Ok?
      && ParseUnsigned(RequiredValue(args, WARMUP).value, U16_MAX) == Some(s.warmup)
  {
  }

  lemma AcceptedFrames(args: seq<string>) returns (i: nat, dirty: nat)
    requires FramesFromArgs(args).Ok?
    ensures OnlyAt(args, PATTERN, i) && SpeltBy(FramesFromArgs(args).value, args[i][|PATTERN|..], dirty)
    ensures dirty <= 10_000 && 1 <= |FramesFromArgs(args).value| <= 600
  {
    dirty := ParseValue(RequiredValue(args, DIRTY).value, U16_MAX).value;
    i := OneMatch(args, PATTERN);
    PatternIsSpelt(RequiredValue(args, PATTERN).value, dirty);
  }

  /** The child runs a probe only if asked by name, within its bounds, and from arguments each of
      which is there once; its frames are those its pattern spells. */
  lemma AcceptedArguments(args: seq<string>, o: Options) returns (i: nat, dirty: nat)
    requires OptionsFromArgs(args) == Ok(Some(o))
    ensures VERSION in args && OnlyAt(args, PATTERN, i) && SpeltBy(o.frames, args[i][|PATTERN|..], dirty)
    ensures dirty <= 10_000 && 1 <= |o.frames| <= 600
    ensures o.width > 0 && o.height > 0 && 0 < o.windowNs <= 60_000_000_000 && o.warmup <= 64
  {
    AcceptedSizes(args, SizesFromArgs(args).value);
    i, dirty := AcceptedFrames(args);
  }
}
