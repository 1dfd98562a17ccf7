/** Byte strings and the fixed-width integers the wire formats use. */
module Bytes {
  type byte = b: int | 0 <= b < 256

  const U32: nat := 0x1_0000_0000

  function Be32(n: nat): (s: seq<byte>)
    requires n < U32
    ensures |s| == 4
  {
    var high, low := n / 0x1_0000, n % 0x1_0000;
    [high / 256, high % 256, low / 256, low % 256]
  }

  function FromBe32(s: seq<byte>): (n: nat)
    requires |s| == 4
    ensures n < U32
  {
    (s[0] as int * 256 + s[1]) * 0x1_0000 + (s[2] as int * 256 + s[3])
  }

  function Reverse4(s: seq<byte>): seq<byte>
    requires |s| == 4
  {
    [s[3], s[2], s[1], s[0]]
  }

  function Le32(n: nat): (s: seq<byte>)
    requires n < U32
    ensures |s| == 4
  {
    Reverse4(Be32(n))
  }

  function FromLe32(s: seq<byte>): (n: nat)
    requires |s| == 4
    ensures n < U32
  {
    FromBe32(Reverse4(s))
  }

  lemma Be32RoundTrip(n: nat)
    requires n < U32
    ensures FromBe32(Be32(n)) == n
  {
  }

  lemma Le32RoundTrip(n: nat)
    requires n < U32
    ensures FromLe32(Le32(n)) == n
  {
    assert Reverse4(Le32(n)) == Be32(n);
    Be32RoundTrip(n);
  }

  lemma Be32Inverts(s: seq<byte>)
    requires |s| == 4
    ensures Be32(FromBe32(s)) == s
  {
    var high, low := s[0] as int * 256 + s[1], s[2] as int * 256 + s[3];
    assert FromBe32(s) / 0x1_0000 == high && FromBe32(s) % 0x1_0000 == low;
  }

  lemma Le32Inverts(s: seq<byte>)
    requires |s| == 4
    ensures Le32(FromLe32(s)) == s
  {
    Be32Inverts(Reverse4(s));
  }

  function Concat<T>(parts: seq<seq<T>>): seq<T>
  {
    if parts == [] then [] else parts[0] + Concat(parts[1..])
  }

  lemma {:induction false} ConcatSplit<T>(a: seq<seq<T>>, b: seq<seq<T>>)
    ensures Concat(a + b) == Concat(a) + Concat(b)
  {
    if a == [] {
      assert a + b == b;
    } else {
      assert (a + b)[1..] == a[1..] + b;
      ConcatSplit(a[1..], b);
    }
  }

  lemma ConcatOne<T>(a: seq<seq<T>>, x: seq<T>)
    ensures Concat(a + [x]) == Concat(a) + x
  {
    ConcatSplit(a, [x]);
    assert Concat([x]) == x + Concat([x][1..]) == x;
  }

  lemma ConcatAssoc<T>(a: seq<T>, b: seq<T>, c: seq<T>)
    ensures a + (b + c) == (a + b) + c
  {
  }

  lemma SliceOfSlice<T>(s: seq<T>, a: nat, i: nat, j: nat)
    requires a <= |s| && i <= j <= |s| - a
    ensures s[a..][i..j] == s[a + i..a + j]
  {
  }

  lemma SliceOfWindow<T>(s: seq<T>, a: nat, b: nat, i: nat, j: nat)
    requires a <= b <= |s| && i <= j <= b - a
    ensures s[a..b][i..j] == s[a + i..a + j]
  {
    var window := s[a..b];
    forall k | 0 <= k < j - i
      ensures window[i..j][k] == s[a + i..a + j][k]
    {
      assert window[i + k] == s[a + (i + k)];
    }
  }
}
