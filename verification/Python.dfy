/** The parts of Python that reading an archive depends on: slices and octal numbers. */
module Python {
  import opened Wrappers
  import opened Bytes

  // ----- Slices

  /** Where an index of a slice falls in a sequence of length `n`. */
  function Place(i: int, n: nat): (p: nat)
    ensures p <= n
  {
    if i < 0 then if n + i < 0 then 0 else n + i else if i > n then n else i
  }

  /** `s[from:to]`: negative indices count from the end, and nothing is out of range. */
  function Slice<T>(s: seq<T>, from: int, to: int): seq<T>
  {
    var lo, hi := Place(from, |s|), Place(to, |s|);
    if lo <= hi then s[lo..hi] else []
  }

  // ----- `int(text, 8)`

  const BLANK: byte := 32
  const PLUS: byte := 43
  const MINUS: byte := 45
  const ZERO: byte := 48
  const UNDERSCORE: byte := 95

  predicate IsBlank(b: byte) { b == BLANK || 9 <= b <= 13 }

  /** Octal digits, with single underscores allowed between them. */
  function Digits(s: seq<byte>): Option<nat>
  {
    if s == [] || s[|s| - 1] < ZERO || s[|s| - 1] > ZERO + 7 then None
    else
      var digit: nat := s[|s| - 1] - ZERO;
      var front := s[..|s| - 1];
      if front == [] then Some(digit)
      else
        var more := Digits(if front[|front| - 1] == UNDERSCORE then front[..|front| - 1] else front);
        if more.None? then None else Some(8 * more.value + digit)
  }

  /** An optional `0o` in front, and an underscore after that. */
  function Unsigned(s: seq<byte>): Option<nat>
  {
    if |s| >= 2 && s[0] == ZERO && (s[1] == 111 || s[1] == 79) then
      Digits(if |s| >= 3 && s[2] == UNDERSCORE then s[3..] else s[2..])
    else Digits(s)
  }

  function Signed(s: seq<byte>): Option<int>
  {
    if s != [] && s[0] == MINUS then
      var n := Unsigned(s[1..]);
      if n.None? then None else Some(-1 * n.value)
    else
      var n := Unsigned(if s != [] && s[0] == PLUS then s[1..] else s);
      if n.None? then None else Some(n.value)
  }

  /** Blanks at either end do not matter. */
  function Int8(text: seq<byte>): Option<int>
  {
    if text != [] && IsBlank(text[0]) then Int8(text[1..])
    else if text != [] && IsBlank(text[|text| - 1]) then Int8(text[..|text| - 1])
    else Signed(text)
  }

  // ----- Some numbers

  lemma {:induction false} ZerosAreZero(n: nat)
    requires n > 0
    ensures Digits(seq(n, _ => ZERO)) == Some(0)
  {
    var s := seq(n, _ => ZERO);
    assert s[..n - 1] == seq(n - 1, _ => ZERO);
    if n > 1 { ZerosAreZero(n - 1); }
  }

  lemma OneMoreDigit(s: seq<byte>, v: nat, d: byte)
    requires Digits(s) == Some(v) && ZERO <= d <= ZERO + 7
    ensures Digits(s + [d]) == Some(8 * v + (d - ZERO))
  {
    assert (s + [d])[..|s|] == s;
  }

  lemma NothingToTrim(s: seq<byte>)
    requires s != [] && !IsBlank(s[0]) && !IsBlank(s[|s| - 1])
    ensures Int8(s) == Signed(s)
  {
  }

  // ----- What a slice is

  /** Within bounds a slice is the plain one, from the end if an index is negative; out of bounds it is
      cut off; and where the ends cross it is empty. */
  lemma SliceIs<T>(s: seq<T>, from: nat, to: nat)
    ensures from <= to <= |s| ==> Slice(s, from, to) == s[from..to]
    ensures 0 < from <= |s| ==> Slice(s, -1 * from, |s|) == s[|s| - from..]
    ensures 0 < to <= |s| ==> Slice(s, 0, -1 * to) == s[..|s| - to]
    ensures from <= |s| < to ==> Slice(s, from, to) == s[from..]
    ensures from >= |s| || from > to ==> Slice(s, from, to) == []
  {
  }
}
