/**
 The reading loop of the archive tool on every input, negative sizes included.

 Python's `int` takes a sign and its slices take negative indices, so a header can send the loop
 backwards, even before the start of the archive.  `RoundAt` is one round of it as written.
 */
module CpioLoop {
  import opened Wrappers
  import opened Bytes
  import opened Python
  import opened Cpio

  datatype Round = Stops(error: Error) | Ends(last: Entry) | Goes(entry: Entry, next: int)

  function SizedRound(data: seq<byte>, position: int, nameSize: int, fileSize: int): Round
  {
    var nameStart := position + ODC_HEADER_SIZE;
    var bodyStart := nameStart + nameSize;
    var end := bodyStart + fileSize;
    if end > |data| then Stops(RunsPast)
    else
      var name := Slice(data, nameStart, bodyStart - 1);
      var entry := Entry(name, Slice(data, position, end), Slice(data, bodyStart, end));
      if name == ODC_TRAILER then Ends(entry) else Goes(entry, end)
  }

  function RoundAt(data: seq<byte>, position: int): Round
  {
    var header := Slice(data, position, position + ODC_HEADER_SIZE);
    if |header| < ODC_HEADER_SIZE || header[..6] != ODC_MAGIC then Stops(NotOdc)
    else
      var nameSize, fileSize := Int8(header[59..65]), Int8(header[65..76]);
      if nameSize.None? || fileSize.None? then Stops(BadSize)
      else SizedRound(data, position, nameSize.value, fileSize.value)
  }

  /** The loop over any rounds, cut off after `fuel` of them. */
  function Loop(rounds: int -> Round, position: int, fuel: nat, entries: seq<Entry>): Option<Result<seq<Entry>, Error>>
    decreases fuel
  {
    if fuel == 0 then None
    else
      match rounds(position)
      case Stops(error) => Some(Err(error))
      case Ends(last) => Some(Ok(entries + [last]))
      case Goes(entry, next) => Loop(rounds, next, fuel - 1, entries + [entry])
  }

  ghost predicate Terminates(rounds: int -> Round) { exists fuel: nat :: Loop(rounds, 0, fuel, []).Some? }

  // ----- Exactly when a loop terminates

  /** Where round `k` starts, if there is one. */
  function At(rounds: int -> Round, k: nat): Option<int>
  {
    if k == 0 then Some(0)
    else
      var before := At(rounds, k - 1);
      if before.None? || !rounds(before.value).Goes? then None else Some(rounds(before.value).next)
  }

  lemma {:induction false} LoopFollows(rounds: int -> Round, k: nat, fuel: nat, entries: seq<Entry>)
    requires At(rounds, k).Some?
    ensures Loop(rounds, At(rounds, k).value, fuel, entries).None? <==> At(rounds, k + fuel).Some?
    decreases fuel
  {
    if fuel > 0 {
      var round := rounds(At(rounds, k).value);
      if round.Goes? {
        LoopFollows(rounds, k + 1, fuel - 1, entries + [round.entry]);
      } else {
        OverStaysOver(rounds, k + 1, k + fuel);
      }
    }
  }

  lemma {:induction false} OverStaysOver(rounds: int -> Round, i: nat, j: nat)
    requires i <= j && At(rounds, i).None?
    ensures At(rounds, j).None?
    decreases j
  {
    if i < j { OverStaysOver(rounds, i, j - 1); }
  }

  lemma {:induction false} SameFuture(rounds: int -> Round, i: nat, j: nat, m: nat)
    requires At(rounds, i) == At(rounds, j)
    ensures At(rounds, i + m) == At(rounds, j + m)
  {
    if m > 0 { SameFuture(rounds, i, j, m - 1); }
  }

  predicate SamePlace(rounds: int -> Round, i: nat, j: nat)
  {
    i < j && At(rounds, i).Some? && At(rounds, i) == At(rounds, j)
  }

  /** Some position is visited twice. */
  ghost predicate Revisits(rounds: int -> Round) { exists i: nat, j: nat :: SamePlace(rounds, i, j) }

  lemma {:induction false} GoesRound(rounds: int -> Round, i: nat, j: nat, n: nat)
    requires SamePlace(rounds, i, j)
    ensures n * (j - i) >= n && At(rounds, i + n * (j - i)) == At(rounds, i)
  {
    if n > 0 {
      GoesRound(rounds, i, j, n - 1);
      SameFuture(rounds, i, j, (n - 1) * (j - i));
      assert n * (j - i) == (n - 1) * (j - i) + (j - i);
    }
  }

  lemma RevisitNeverEnds(rounds: int -> Round, k: nat)
    requires Revisits(rounds)
    ensures At(rounds, k).Some?
  {
    var i: nat, j: nat :| SamePlace(rounds, i, j);
    GoesRound(rounds, i, j, k);
    if At(rounds, k).None? { OverStaysOver(rounds, k, i + k * (j - i)); }
  }

  /** Only rounds that start near the archive go on. */
  ghost predicate StaysNear(rounds: int -> Round, n: nat)
  {
    forall p: int :: rounds(p).Goes? ==> -1 * n <= p <= n
  }

  function Near(n: nat): set<int>
  {
    if n == 0 then {0} else Near(n - 1) + {n as int, 0 - n}
  }

  lemma {:induction false} NearHas(n: nat, x: int)
    ensures x in Near(n) <==> -1 * n <= x <= n
  {
    if n > 0 { NearHas(n - 1, x); }
  }

  lemma TwoMore(s: set<int>, a: int, b: int)
    requires a !in s && b !in s && a != b
    ensures |s + {a, b}| == |s| + 2
  {
    assert s + {a, b} == s + {a} + {b};
  }

  lemma {:induction false} NearSize(n: nat)
    ensures |Near(n)| == 2 * n + 1
  {
    if n > 0 {
      NearSize(n - 1);
      NearHas(n - 1, n);
      NearHas(n - 1, 0 - n);
      TwoMore(Near(n - 1), n, 0 - n);
    }
  }

  /** The first `k` positions. */
  function Visited(rounds: int -> Round, k: nat): set<int>
    requires At(rounds, k).Some?
  {
    if k == 0 then {} else Visited(rounds, k - 1) + {At(rounds, k - 1).value}
  }

  lemma {:induction false} VisitedIs(rounds: int -> Round, k: nat, x: int, n: nat)
    requires At(rounds, k).Some? && StaysNear(rounds, n) && x in Visited(rounds, k)
    ensures -1 * n <= x <= n && exists i: nat :: i < k && At(rounds, i) == Some(x)
  {
    if x == At(rounds, k - 1).value {
      assert rounds(x).Goes?;
      assert At(rounds, k - 1) == Some(x);
    } else {
      VisitedIs(rounds, k - 1, x, n);
    }
  }

  lemma SeenBefore(rounds: int -> Round, k: nat, x: int, n: nat)
    requires At(rounds, k) == Some(x) && StaysNear(rounds, n) && x in Visited(rounds, k)
    ensures Revisits(rounds)
  {
    VisitedIs(rounds, k, x, n);
    var i: nat :| i < k && At(rounds, i) == Some(x);
    assert SamePlace(rounds, i, k);
  }

  lemma {:induction false} VisitedSize(rounds: int -> Round, k: nat, n: nat)
    requires At(rounds, k).Some? && StaysNear(rounds, n) && !Revisits(rounds)
    ensures |Visited(rounds, k)| == k
  {
    if k > 0 {
      VisitedSize(rounds, k - 1, n);
      var x := At(rounds, k - 1).value;
      if x in Visited(rounds, k - 1) { SeenBefore(rounds, k - 1, x, n); }
    }
  }

  lemma SubsetSize(a: set<int>, b: set<int>)
    requires a <= b
    ensures |a| <= |b|
  {
    assert b == a + (b - a);
  }

  /** Without a revisit there are no more rounds than near positions. */
  lemma NoRevisitEnds(rounds: int -> Round, n: nat)
    requires StaysNear(rounds, n) && !Revisits(rounds)
    ensures At(rounds, 2 * n + 2).None?
  {
    var k := 2 * n + 2;
    if At(rounds, k).Some? {
      VisitedSize(rounds, k, n);
      NearSize(n);
      forall x | x in Visited(rounds, k)
        ensures x in Near(n)
      {
        VisitedIs(rounds, k, x, n);
        NearHas(n, x);
      }
      SubsetSize(Visited(rounds, k), Near(n));
    }
  }

  lemma LoopTerminatesIff(rounds: int -> Round, n: nat)
    requires StaysNear(rounds, n)
    ensures Terminates(rounds) <==> !Revisits(rounds)
    ensures Terminates(rounds) <==> At(rounds, 2 * n + 2).None?
  {
    LoopFollows(rounds, 0, 2 * n + 2, []);
    if Terminates(rounds) {
      var fuel: nat :| Loop(rounds, 0, fuel, []).Some?;
      LoopFollows(rounds, 0, fuel, []);
      if Revisits(rounds) { RevisitNeverEnds(rounds, fuel); }
    }
    if !Revisits(rounds) { NoRevisitEnds(rounds, n); }
  }

  // ----- The reading loop

  lemma GoingOnIsNear(data: seq<byte>, position: int)
    requires RoundAt(data, position).Goes?
    ensures -1 * |data| <= position <= |data|
  {
  }

  /** The rounds of the reading loop on `data`. */
  ghost predicate Reads(rounds: int -> Round, data: seq<byte>)
  {
    forall p: int {:trigger RoundAt(data, p)} :: rounds(p) == RoundAt(data, p)
  }

  lemma ReadsStayNear(rounds: int -> Round, data: seq<byte>)
    requires Reads(rounds, data)
    ensures StaysNear(rounds, |data|)
  {
    forall p: int
      ensures rounds(p).Goes? ==> -1 * |data| <= p <= |data|
    {
      assert rounds(p) == RoundAt(data, p);
      if rounds(p).Goes? { GoingOnIsNear(data, p); }
    }
  }

  /** `read_odc` terminates exactly if it visits no position twice. */
  lemma ReadTerminatesIff(rounds: int -> Round, data: seq<byte>)
    requires Reads(rounds, data)
    ensures Terminates(rounds) <==> !Revisits(rounds)
  {
    ReadsStayNear(rounds, data);
    LoopTerminatesIff(rounds, |data|);
  }

  // ----- Without negative sizes the loop is the reader

  /** The round that an entry, or an error, of the archive stands for. */
  function RoundFor(p: nat, first: Result<Entry, Error>): Round
  {
    match first
    case Err(error) => Stops(error)
    case Ok(e) => if e.name == ODC_TRAILER then Ends(e) else Goes(e, p + |e.raw|)
  }

  lemma PlainSlice(data: seq<byte>, p: nat, from: nat, to: nat)
    requires p + from <= p + to <= |data|
    ensures Slice(data, p + from, p + to) == data[p..][from..to]
  {
    SliceOfSlice(data, p, from, to);
  }

  lemma NameAgrees(data: seq<byte>, p: nat, from: nat, size: nat)
    requires 0 < from <= from + size <= |data| - p
    ensures Slice(data, p + from, p + from + size - 1) == if size == 0 then [] else data[p..][from..from + size - 1]
  {
    if size > 0 { PlainSlice(data, p, from, from + size - 1); }
  }

  lemma RawAgrees(data: seq<byte>, p: nat, size: nat)
    requires size <= |data| - p
    ensures Slice(data, p, p + size) == data[p..][..size]
  {
    PlainSlice(data, p, 0, size);
  }

  lemma SizedAgrees(data: seq<byte>, p: nat, nameSize: int, fileSize: int)
    requires p + ODC_HEADER_SIZE <= |data| && nameSize >= 0 && fileSize >= 0
    ensures SizedRound(data, p, nameSize, fileSize) == RoundFor(p, Sized(data[p..], nameSize, fileSize))
  {
    var body := ODC_HEADER_SIZE + nameSize;
    var end := body + fileSize;
    if p + end <= |data| {
      NameAgrees(data, p, ODC_HEADER_SIZE, nameSize);
      RawAgrees(data, p, end);
      PlainSlice(data, p, body, end);
    }
  }

  lemma RoundAgrees(data: seq<byte>, p: nat)
    requires p <= |data| && First(data[p..]) != Err(NegativeSize)
    ensures RoundAt(data, p) == RoundFor(p, First(data[p..]))
  {
    if p + ODC_HEADER_SIZE <= |data| {
      HeaderFields(data, p);
      var nameSize, fileSize := Int8(data[p..][59..65]), Int8(data[p..][65..76]);
      if nameSize.Some? && fileSize.Some? && nameSize.value >= 0 && fileSize.value >= 0 {
        SizedAgrees(data, p, nameSize.value, fileSize.value);
      }
    }
  }

  lemma LoopOnce(rounds: int -> Round, p: nat, first: Result<Entry, Error>, fuel: nat, entries: seq<Entry>)
    requires fuel > 0 && rounds(p) == RoundFor(p, first)
    ensures first.Err? ==> Loop(rounds, p, fuel, entries) == Some(Err(first.error))
    ensures first.Ok? && first.value.name == ODC_TRAILER ==>
      Loop(rounds, p, fuel, entries) == Some(Ok(entries + [first.value]))
    ensures first.Ok? && first.value.name != ODC_TRAILER ==>
      Loop(rounds, p, fuel, entries) == Loop(rounds, p + |first.value.raw|, fuel - 1, entries + [first.value])
  {
  }

  lemma EntriesError(rest: seq<byte>)
    ensures First(rest).Err? ==> Entries(rest) == Err(First(rest).error)
    ensures First(rest).Ok? && First(rest).value.name != ODC_TRAILER && Entries(rest) != Err(NegativeSize) ==>
      Entries(rest[|First(rest).value.raw|..]) != Err(NegativeSize)
  {
  }

  lemma ReadsFirst(data: seq<byte>, rounds: int -> Round, p: nat)
    requires Reads(rounds, data) && p <= |data| && First(data[p..]) != Err(NegativeSize)
    ensures rounds(p) == RoundFor(p, First(data[p..]))
  {
    RoundAgrees(data, p);
  }

  /** One round of the loop, and one entry of the archive. */
  lemma AgreeOnce(data: seq<byte>, rounds: int -> Round, p: nat, fuel: nat, entries: seq<Entry>,
                  first: Result<Entry, Error>)
    returns (next: nat, more: seq<Entry>)
    requires p <= |data| && fuel > 0 && first == First(data[p..]) && rounds(p) == RoundFor(p, first)
    requires Entries(data[p..]) != Err(NegativeSize)
    ensures next == p ==> Loop(rounds, p, fuel, entries) == Some(After(entries, Entries(data[p..])))
    ensures next != p ==>
      && p < next <= |data| && Entries(data[next..]) != Err(NegativeSize)
      && Loop(rounds, p, fuel, entries) == Loop(rounds, next, fuel - 1, more)
      && After(entries, Entries(data[p..])) == After(more, Entries(data[next..]))
  {
    EntriesError(data[p..]);
    LoopOnce(rounds, p, first, fuel, entries);
    next, more := p, entries;
    if first.Ok? {
      StepEntries(entries, data[p..]);
      if first.value.name != ODC_TRAILER {
        next, more := p + |first.value.raw|, entries + [first.value];
        assert data[p..][|first.value.raw|..] == data[next..];
      }
    }
  }

  lemma NotNegative(rest: seq<byte>)
    requires Entries(rest) != Err(NegativeSize)
    ensures First(rest) != Err(NegativeSize)
  {
    EntriesError(rest);
  }

  /** An archive in which no negative size is met is read as `ReadOdc` reads it. */
  lemma {:induction false} LoopAgrees(data: seq<byte>, rounds: int -> Round, p: nat, fuel: nat, entries: seq<Entry>)
    requires Reads(rounds, data)
    requires p <= |data| < p + fuel && Entries(data[p..]) != Err(NegativeSize)
    ensures Loop(rounds, p, fuel, entries) == Some(After(entries, Entries(data[p..])))
    decreases fuel
  {
    NotNegative(data[p..]);
    ReadsFirst(data, rounds, p);
    var next, more := AgreeOnce(data, rounds, p, fuel, entries, First(data[p..]));
    if next != p { LoopAgrees(data, rounds, next, fuel - 1, more); }
  }

  lemma LoopIs(rounds: int -> Round, data: seq<byte>, whole: seq<byte>, fuel: nat)
    requires Reads(rounds, data) && whole == data[0..] && fuel == |data| + 1 && Entries(whole) != Err(NegativeSize)
    ensures Loop(rounds, 0, fuel, []) == Some(Entries(whole))
  {
    AfterNothing(Entries(whole));
    LoopAgrees(data, rounds, 0, fuel, []);
  }

  lemma LoopEnds(rounds: int -> Round, fuel: nat, r: Result<seq<Entry>, Error>)
    requires Loop(rounds, 0, fuel, []) == Some(r)
    ensures Terminates(rounds)
  {
  }

  /** The reading loop ends with what `ReadOdc` returns, if it meets no negative size. */
  lemma ReaderTerminates(rounds: int -> Round, data: seq<byte>)
    requires Reads(rounds, data) && Entries(data) != Err(NegativeSize)
    ensures Terminates(rounds) && Loop(rounds, 0, |data| + 1, []) == Some(Entries(data))
  {
    LoopIs(rounds, data, data, |data| + 1);
    LoopEnds(rounds, |data| + 1, Entries(data));
  }

  lemma AfterNothing(r: Result<seq<Entry>, Error>)
    ensures After([], r) == r
  {
    if r.Ok? { assert [] + r.value == r.value; }
  }

  // ----- An archive that is never read to the end

  /** Seven zeros and 114: seventy-six in octal. */
  const SEVENTY_SIX: seq<byte> := seq(7, _ => ZERO) + [49] + [49] + [52]

  /** One header: no name, and a file of minus seventy-six bytes. */
  const BACK_TO_START: seq<byte> := ODC_MAGIC + seq(53, _ => ZERO) + seq(6, _ => ZERO) + ([MINUS] + SEVENTY_SIX)

  lemma MinusSeventySix()
    ensures |SEVENTY_SIX| == 10 && Int8([MINUS] + SEVENTY_SIX) == Some(-76)
  {
    ZerosAreZero(7);
    OneMoreDigit(seq(7, _ => ZERO), 0, 49);
    OneMoreDigit(seq(7, _ => ZERO) + [49], 1, 49);
    OneMoreDigit(seq(7, _ => ZERO) + [49] + [49], 9, 52);
    var text := [MINUS] + SEVENTY_SIX;
    NothingToTrim(text);
    assert text[1..] == SEVENTY_SIX && SEVENTY_SIX[1] == ZERO;
  }

  lemma NoName()
    ensures Int8(seq(6, _ => ZERO)) == Some(0)
  {
    ZerosAreZero(6);
    NothingToTrim(seq(6, _ => ZERO));
  }

  lemma BackToStart()
    ensures RoundAt(BACK_TO_START, 0).Goes? && RoundAt(BACK_TO_START, 0).next == 0
  {
    MinusSeventySix();
    NoName();
    var data := BACK_TO_START;
    assert |data| == 76 && Slice(data, 0, 76) == data;
    assert data[..6] == ODC_MAGIC && data[59..65] == seq(6, _ => ZERO) && data[65..76] == [MINUS] + SEVENTY_SIX;
  }

  /** The loop does not terminate on it. */
  lemma NeverEnds(rounds: int -> Round)
    requires Reads(rounds, BACK_TO_START)
    ensures !Terminates(rounds)
  {
    BackToStart();
    StandingStill(rounds);
    ReadTerminatesIff(rounds, BACK_TO_START);
  }

  lemma StandingStill(rounds: int -> Round)
    requires rounds(0).Goes? && rounds(0).next == 0
    ensures Revisits(rounds)
  {
    assert At(rounds, 0) == At(rounds, 1) == Some(0);
    assert SamePlace(rounds, 0, 1);
  }
}
