/** Entries as an archiver writes them, and the names of companions: what the reader makes of both. */
module CpioWriting {
  import opened Wrappers
  import opened Bytes
  import opened Python
  import opened Cpio

  // ----- Octal fields

  function Pow8(width: nat): (p: nat)
    ensures p > 0
  {
    if width == 0 then 1 else 8 * Pow8(width - 1)
  }

  /** `n` in octal, with leading zeros. */
  function OctalText(n: nat, width: nat): (s: seq<byte>)
    ensures |s| == width
  {
    if width == 0 then [] else OctalText(n / 8, width - 1) + [ZERO + n % 8]
  }

  lemma {:induction false} OctalDigits(n: nat, width: nat, i: nat)
    requires i < width
    ensures ZERO <= OctalText(n, width)[i] <= ZERO + 7
  {
    if i < width - 1 { OctalDigits(n / 8, width - 1, i); }
  }

  lemma EighthFits(n: nat, p: nat)
    requires n < 8 * p
    ensures n / 8 < p && n == 8 * (n / 8) + n % 8
  {
  }

  lemma {:induction false} DigitsOfOctal(n: nat, width: nat)
    requires 0 < width && n < Pow8(width)
    ensures Digits(OctalText(n, width)) == Some(n)
  {
    EighthFits(n, Pow8(width - 1));
    if width == 1 {
      assert OctalText(n, 1) == OctalText(n / 8, 0) + [ZERO + n % 8] == [ZERO + n];
    } else {
      DigitsOfOctal(n / 8, width - 1);
      OneMoreDigit(OctalText(n / 8, width - 1), n / 8, ZERO + n % 8);
    }
  }

  /** A size field as it is written is read back. */
  lemma OctalRoundTrip(n: nat, width: nat)
    requires 2 <= width && n < Pow8(width)
    ensures Int8(OctalText(n, width)) == Some(n)
  {
    var s := OctalText(n, width);
    OctalDigits(n, width, 0);
    OctalDigits(n, width, 1);
    OctalDigits(n, width, width - 1);
    NothingToTrim(s);
    DigitsOfOctal(n, width);
  }

  // ----- Entries

  /** An entry of the odc format: magic, the fields the reader skips, the sizes of the name with its
      final zero byte and of the file, then both (POSIX.1, pax utility, cpio Interchange Format). */
  function Written(fields: seq<byte>, name: seq<byte>, body: seq<byte>): seq<byte>
  {
    Header(fields, |name| + 1, |body|) + name + [0] + body
  }

  function Header(fields: seq<byte>, nameSize: nat, fileSize: nat): seq<byte>
  {
    [48, 55, 48, 55, 48, 55] + fields + OctalText(nameSize, 6) + OctalText(fileSize, 11)
  }

  lemma HeaderParts(fields: seq<byte>, nameSize: nat, fileSize: nat, rest: seq<byte>)
    requires |fields| == 53
    ensures var data := Header(fields, nameSize, fileSize) + rest;
      && |data| == 76 + |rest| && data[..6] == ODC_MAGIC && data[59..65] == OctalText(nameSize, 6)
      && data[65..76] == OctalText(fileSize, 11) && data[76..] == rest
  {
  }

  /** Whatever follows it, a written entry is read back: its name, its bytes and its body. */
  lemma WrittenIsRead(fields: seq<byte>, name: seq<byte>, body: seq<byte>, after: seq<byte>)
    requires |fields| == 53 && |name| + 1 < Pow8(6) && |body| < Pow8(11)
    ensures First(Written(fields, name, body) + after) == Ok(Entry(name, Written(fields, name, body), body))
  {
    var raw := Written(fields, name, body);
    var data := raw + after;
    var rest := name + [0] + body + after;
    assert data == Header(fields, |name| + 1, |body|) + rest;
    HeaderParts(fields, |name| + 1, |body|, rest);
    OctalRoundTrip(|name| + 1, 6);
    OctalRoundTrip(|body|, 11);
    var bodyStart := 76 + |name| + 1;
    assert |raw| == bodyStart + |body|;
    SliceOfSlice(data, 76, 0, |name|);
    assert rest[..|name|] == name;
    SliceOfSlice(data, 76, |name| + 1, |name| + 1 + |body|);
    assert rest[|name| + 1..|name| + 1 + |body|] == body;
    assert data[..|raw|] == raw;
  }

  // ----- Names

  predicate HasSlash(name: seq<byte>) { exists i :: 0 <= i < |name| && name[i] == SLASH }

  lemma {:induction false} BaseStartOfPath(dir: seq<byte>, base: seq<byte>)
    requires !HasSlash(base)
    ensures BaseStart(dir + [SLASH] + base) == |dir| + 1
    decreases |base|
  {
    var name := dir + [SLASH] + base;
    if base != [] {
      var front := base[..|base| - 1];
      assert name[..|name| - 1] == dir + [SLASH] + front && name[|name| - 1] == base[|base| - 1];
      assert !HasSlash(front) by {
        assert forall i :: 0 <= i < |front| ==> front[i] == base[i];
      }
      BaseStartOfPath(dir, front);
    }
  }

  lemma {:induction false} BaseStartOfPlain(base: seq<byte>)
    requires !HasSlash(base)
    ensures BaseStart(base) == 0
    decreases |base|
  {
    if base != [] {
      var front := base[..|base| - 1];
      assert !HasSlash(front) by {
        assert forall i :: 0 <= i < |front| ==> front[i] == base[i];
      }
      BaseStartOfPlain(front);
    }
  }

  /** In a directory: `dir/base` is a companion exactly if `base` starts with `._`, and `dir/._x`
      accompanies `dir/x`, or `x` if the directory is the empty one. */
  lemma CompanionInDirectory(dir: seq<byte>, base: seq<byte>)
    requires !HasSlash(base)
    ensures IsAppleDouble(dir + [SLASH] + base) <==> |base| >= 2 && base[0] == 46 && base[1] == 95
    ensures |base| >= 2 && base[0] == 46 && base[1] == 95 ==>
      Sibling(dir + [SLASH] + base) == if dir == [] then base[2..] else dir + [SLASH] + base[2..]
  {
    var name := dir + [SLASH] + base;
    BaseStartOfPath(dir, base);
    assert name[|dir| + 1..] == base && name[..|dir|] == dir;
  }

  /** At the top: `._x` accompanies `x`. */
  lemma CompanionAtTop(base: seq<byte>)
    requires !HasSlash(base)
    ensures IsAppleDouble(base) <==> |base| >= 2 && base[0] == 46 && base[1] == 95
    ensures |base| >= 2 && base[0] == 46 && base[1] == 95 ==> Sibling(base) == base[2..]
  {
    BaseStartOfPlain(base);
    assert base[0..] == base;
  }

  // ----- Whole archives

  datatype Member = Member(fields: seq<byte>, name: seq<byte>, body: seq<byte>)

  predicate Writable(m: Member) { |m.fields| == 53 && |m.name| + 1 < Pow8(6) && |m.body| < Pow8(11) }

  function EntryOf(m: Member): Entry { Entry(m.name, Written(m.fields, m.name, m.body), m.body) }

  function EntriesOf(members: seq<Member>): (es: seq<Entry>)
    ensures |es| == |members| && forall i :: 0 <= i < |es| ==> es[i] == EntryOf(members[i])
  {
    seq(|members|, i requires 0 <= i < |members| => EntryOf(members[i]))
  }

  lemma WrittenIsSelfContained(m: Member)
    requires Writable(m)
    ensures SelfContained(EntryOf(m))
  {
    forall tail: seq<byte>
      ensures First(EntryOf(m).raw + tail) == Ok(EntryOf(m))
    {
      WrittenIsRead(m.fields, m.name, m.body, tail);
    }
  }

  /** An archive of members, the trailer last and only there, is read back whatever its members hold. */
  lemma WrittenArchiveIsRead(members: seq<Member>)
    requires members != [] && forall i :: 0 <= i < |members| ==> Writable(members[i])
    requires forall i :: 0 <= i < |members| ==> (members[i].name == ODC_TRAILER <==> i == |members| - 1)
    ensures Entries(Raws(EntriesOf(members))) == Ok(EntriesOf(members))
  {
    forall i | 0 <= i < |members|
      ensures SelfContained(EntriesOf(members)[i])
    {
      WrittenIsSelfContained(members[i]);
    }
    ArchiveReadsBack(EntriesOf(members));
  }
}
