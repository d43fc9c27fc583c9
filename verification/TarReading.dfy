// Which byte strings are archives, header by header, and the bytes of a header written.
module TarReading {
  import opened Wrappers
  import opened Bytes
  import opened Tar
  import opened TarTheory
  import opened TarPaths

  // ----- text fields

  predicate IsBreak(b: byte) {
    b == 0x0a || b == 0x0d
  }

  // A field ends at its first NUL that no line break follows, or at its end.
  ghost predicate EndsAt(s: seq<byte>, n: nat) {
    && n <= |s|
    && (n < |s| ==> s[n] == 0 && forall k | n < k < |s| :: !IsBreak(s[k]))
    && (forall k | 0 <= k < n && s[k] == 0 :: exists i :: k < i < |s| && IsBreak(s[i]))
  }

  lemma {:induction false} CutExactly(s: seq<byte>)
    ensures |CutNul(s)| <= |s| && CutNul(s) == s[..|CutNul(s)|] && EndsAt(s, |CutNul(s)|)
  {
    if s == [] {
    } else if s[0] == 0 && 0x0a !in s && 0x0d !in s {
    } else {
      var rest, n := s[1..], |CutNul(s[1..])|;
      CutExactly(rest);
      assert forall k | 1 <= k < |s| :: s[k] == rest[k - 1];
      forall k | 0 <= k < n + 1 && s[k] == 0 ensures exists i :: k < i < |s| && IsBreak(s[i]) {
        if k == 0 {
          var i :| 0 <= i < |s| && (s[i] == 0x0a || s[i] == 0x0d);
          assert IsBreak(s[i]);
        } else {
          var i :| k - 1 < i < |rest| && IsBreak(rest[i]);
          assert IsBreak(s[i + 1]);
        }
      }
    }
  }

  lemma OneEnd(s: seq<byte>, n: nat, m: nat)
    requires EndsAt(s, n) && EndsAt(s, m)
    ensures n == m
  {
  }

  lemma TextExactly(s: seq<byte>, n: nat)
    requires EndsAt(s, n)
    ensures CutNul(s) == s[..n]
  {
    hide EndsAt, CutNul;
    CutExactly(s);
    OneEnd(s, n, |CutNul(s)|);
  }

  // ----- numbers

  // The number that octal digits stand for, first digit first; the top bit of a byte is ignored.
  ghost function Digits(s: seq<byte>): nat {
    if s == [] then 0 else (s[0] % 8) * Pow8(|s| - 1) + Digits(s[1..])
  }

  ghost predicate DigitsBetween(s: seq<byte>, i: nat, j: nat, n: nat) {
    && i <= j <= n <= |s|
    && (forall k | 0 <= k < i || j <= k < n :: IsBlank(s[k] % 128))
    && (forall k | i <= k < j :: 0x30 <= s[k] % 128 <= 0x37)
  }

  // A field holds a number: octal digits among blanks, up to its NUL.
  ghost predicate HoldsNumber(s: seq<byte>, value: nat) {
    exists i: nat, j: nat, n: nat :: EndsAt(SevenBits(s), n) && DigitsBetween(s, i, j, n) && value == Digits(s[i..j])
  }

  lemma {:induction false} TrimsStart(s: seq<byte>) returns (i: nat)
    ensures i <= |s| && TrimStart(s) == s[i..] && (forall k | 0 <= k < i :: IsBlank(s[k]))
    ensures i < |s| ==> !IsBlank(s[i])
  {
    i := 0;
    if s != [] && IsBlank(s[0]) {
      var j := TrimsStart(s[1..]);
      i := j + 1;
      assert s[i..] == s[1..][j..];
      assert forall k | 1 <= k < |s| :: s[k] == s[1..][k - 1];
    }
  }

  lemma {:induction false} TrimsEnd(s: seq<byte>) returns (j: nat)
    ensures j <= |s| && TrimEnd(s) == s[..j] && (forall k | j <= k < |s| :: IsBlank(s[k]))
    ensures j > 0 ==> !IsBlank(s[j - 1])
  {
    j := |s|;
    if s != [] && IsBlank(s[|s| - 1]) {
      j := TrimsEnd(s[..|s| - 1]);
    }
  }

  lemma {:induction false} LastDigit(s: seq<byte>)
    requires s != []
    ensures Digits(s) == 8 * Digits(s[..|s| - 1]) + s[|s| - 1] % 8
  {
    if |s| == 1 {
      assert Pow8(0) == 1;
    } else {
      var front := s[..|s| - 1];
      LastDigit(s[1..]);
      assert s[1..][..|s| - 2] == front[1..];
      assert Pow8(|s| - 1) == 8 * Pow8(|s| - 2);
      Regroup(s[0] % 8, Pow8(|s| - 2));
    }
  }

  lemma Regroup(d: nat, p: nat)
    ensures d * (8 * p) == 8 * (d * p)
  {
  }

  lemma {:induction false} ValueIsDigits(s: seq<byte>)
    requires IsOctal(SevenBits(s))
    ensures OctalValue(SevenBits(s)) == Digits(s)
  {
    hide Digits;
    NoDigits();
    if s != [] {
      var front := s[..|s| - 1];
      LastDigit(s);
      assert SevenBits(s)[..|s| - 1] == SevenBits(front);
      ValueIsDigits(front);
      DigitByte(s[|s| - 1]);
    }
  }

  lemma NoDigits()
    ensures Digits([]) == 0
  {
  }

  lemma DigitByte(b: byte)
    ensures 48 <= b % 128 < 56 ==> b % 128 - 48 == b % 8
  {
  }

  // A field is read as a number exactly when it holds that number.
  lemma NumberRead(s: seq<byte>, value: nat)
    requires ParseOctal(s) == Ok(value)
    ensures HoldsNumber(s, value)
  {
    hide TrimStart, TrimEnd, CutNul, OctalValue, Digits, EndsAt;
    var ascii := SevenBits(s);
    CutExactly(ascii);
    var n := |CutNul(ascii)|;
    var cut := ascii[..n];
    var i := TrimsStart(cut);
    var length := TrimsEnd(cut[i..]);
    var j := i + length;
    assert cut[i..][..length] == SevenBits(s[i..j]);
    ValueIsDigits(s[i..j]);
    forall k | i <= k < j ensures 0x30 <= s[k] % 128 <= 0x37 {
      assert SevenBits(s[i..j])[k - i] == s[k] % 128;
    }
    forall k | 0 <= k < i || j <= k < n ensures IsBlank(s[k] % 128) {
      if k < i {
        assert IsBlank(cut[k]);
      } else {
        assert IsBlank(cut[i..][k - i]);
      }
    }
    assert DigitsBetween(s, i, j, n);
  }

  lemma NumberHeld(s: seq<byte>, value: nat)
    requires HoldsNumber(s, value)
    ensures ParseOctal(s) == Ok(value)
  {
    hide TrimStart, TrimEnd, CutNul, OctalValue, Digits, EndsAt;
    var a: nat, b: nat, n: nat :| EndsAt(SevenBits(s), n) && DigitsBetween(s, a, b, n) && value == Digits(s[a..b]);
    TextExactly(SevenBits(s), n);
    var cut := SevenBits(s)[..n];
    var i := TrimsStart(cut);
    var length := TrimsEnd(cut[i..]);
    SameDigits(s, a, b, n, i, i + length);
    assert cut[i..][..length] == SevenBits(s[i..i + length]);
    OctalAscii(s[i..i + length]);
    ValueIsDigits(s[i..i + length]);
  }

  lemma OctalAscii(s: seq<byte>)
    requires forall k | 0 <= k < |s| :: 0x30 <= s[k] % 128 <= 0x37
    ensures IsOctal(SevenBits(s))
  {
  }

  lemma SameDigits(s: seq<byte>, a: nat, b: nat, n: nat, i: nat, j: nat)
    requires DigitsBetween(s, a, b, n) && i <= j <= n
    requires forall k | 0 <= k < i || j <= k < n :: IsBlank(s[k] % 128)
    requires (i < n ==> !IsBlank(s[i] % 128)) && (i < j ==> !IsBlank(s[j - 1] % 128))
    ensures s[i..j] == s[a..b] && DigitsBetween(s, i, j, n)
  {
    if a < b {
      assert !IsBlank(s[a] % 128) && !IsBlank(s[b - 1] % 128);
    }
  }

  // ----- one header

  // The sum of bytes is additive, and that of one byte is the byte.
  lemma {:induction false} SumAdds(a: seq<byte>, b: seq<byte>)
    ensures Sum(a + b) == Sum(a) + Sum(b) && Sum([]) == 0 && forall x: byte :: Sum([x]) == x
  {
    if b == [] {
      assert a + b == a;
    } else {
      SumAdds(a, b[..|b| - 1]);
      assert (a + b)[..|a + b| - 1] == a + b[..|b| - 1];
    }
  }

  ghost predicate IsName(header: seq<byte>, name: Path)
    requires |header| == 512
  {
    exists n: nat, p: nat :: EndsAt(header[..100], n) && EndsAt(header[345..500], p)
      && name == (if p == 0 then header[..n] else header[345..345 + p] + [0x2f] + header[..n])
  }

  // A regular file with a name that stays below, its size, and the sum of the header with the
  // checksum taken as eight spaces.
  ghost predicate HeaderSays(header: seq<byte>, name: Path, size: nat) {
    && |header| == 512
    && IsName(header, name) && StaysBelow(name)
    && header[156] == 0x30
    && HoldsNumber(header[124..136], size)
    && HoldsNumber(header[148..156], Sum(header[..148]) + 256 + Sum(header[156..]))
  }

  lemma NameExactly(header: seq<byte>, name: Path)
    requires |header| == 512
    ensures IsName(header, name) <==> name == HeaderPath(header)
  {
    hide EndsAt, CutNul;
    CutExactly(header[..100]);
    CutExactly(header[345..500]);
    var n, p := |CutNul(header[..100])|, |CutNul(header[345..500])|;
    assert header[..100][..n] == header[..n];
    PrefixOfSlice(header, 345, 500, p);
    assert HeaderPath(header) == if p == 0 then header[..n] else header[345..345 + p] + [0x2f] + header[..n];
    forall m: nat, q: nat | EndsAt(header[..100], m) && EndsAt(header[345..500], q) ensures m == n && q == p {
      OneEnd(header[..100], n, m);
      OneEnd(header[345..500], p, q);
    }
  }

  lemma PrefixOfSlice(s: seq<byte>, i: nat, j: nat, n: nat)
    requires i <= j <= |s| && n <= j - i
    ensures s[i..j][..n] == s[i..i + n]
  {
  }

  lemma SpacesSum(header: seq<byte>)
    requires |header| == 512
    ensures Sum(header[..148] + SPACES + header[156..]) == Sum(header[..148]) + 256 + Sum(header[156..])
  {
    hide Sum;
    SumAdds(header[..148] + SPACES, header[156..]);
    SumAdds(header[..148], SPACES);
    EightSpaces();
  }

  lemma EightSpaces()
    ensures Sum(SPACES) == 256
  {
    assert Sum(Repeated(0x20, 4)) == 128 by {
      assert Repeated(0x20, 4) == [0x20, 0x20, 0x20, 0x20];
      FourSpaces();
    }
    SumAdds(Repeated(0x20, 4), Repeated(0x20, 4));
    assert SPACES == Repeated(0x20, 4) + Repeated(0x20, 4);
  }

  lemma FourSpaces()
    ensures Sum([0x20, 0x20, 0x20, 0x20]) == 128
  {
    hide Sum;
    SumAdds([0x20], [0x20]);
    assert [0x20] + [0x20] == [0x20, 0x20];
    SumAdds([0x20, 0x20], [0x20, 0x20]);
    assert [0x20, 0x20] + [0x20, 0x20] == [0x20, 0x20, 0x20, 0x20];
  }

  // A header is read exactly when it says so.
  lemma HeaderExactly(header: seq<byte>, name: Path, size: nat)
    requires |header| == 512
    ensures ParseHeader(header) == Ok(ParsedHeader(name, size)) <==> HeaderSays(header, name, size)
  {
    hide ParseOctal, Sum, HeaderPath, SafePath, StaysBelow, HoldsNumber, IsName;
    NameExactly(header, name);
    SafeExactly(name);
    SpacesSum(header);
    var total := Sum(header[..148]) + 256 + Sum(header[156..]);
    if HeaderSays(header, name, size) {
      NumberHeld(header[124..136], size);
      NumberHeld(header[148..156], total);
    }
    if ParseHeader(header) == Ok(ParsedHeader(name, size)) {
      NumberRead(header[124..136], size);
      NumberRead(header[148..156], total);
    }
  }

  // ----- the whole archive

  // An entry takes its header, its data, and any bytes up to the next block; one zero block may
  // come before it.
  datatype Member = Member(gap: bool, name: Path, header: seq<byte>, data: seq<byte>, padding: seq<byte>)

  ghost predicate IsMember(e: Member) {
    HeaderSays(e.header, e.name, |e.data|) && |e.padding| < 512 && (|e.data| + |e.padding|) % 512 == 0
  }

  function Blocks(e: Member): seq<byte> {
    (if e.gap then Zeros(512) else []) + e.header + e.data + e.padding
  }

  function Layout(members: seq<Member>): seq<byte> {
    if members == [] then Zeros(1024) else Blocks(members[0]) + Layout(members[1..])
  }

  ghost predicate AreMembers(members: seq<Member>) {
    && (forall i | 0 <= i < |members| :: IsMember(members[i]))
    && (forall i, j | 0 <= i < j < |members| :: members[i].name != members[j].name)
  }

  ghost predicate Holds(members: seq<Member>, entries: map<Path, seq<byte>>) {
    && (forall i | 0 <= i < |members| :: members[i].name in entries && entries[members[i].name] == members[i].data)
    && (forall name | name in entries :: exists i :: 0 <= i < |members| && members[i].name == name)
  }

  ghost predicate IsArchive(tar: seq<byte>, entries: map<Path, seq<byte>>) {
    exists members :: AreMembers(members) && Holds(members, entries) && tar == Layout(members)
  }

  function Content(members: seq<Member>): map<Path, seq<byte>> {
    if members == [] then map[] else map[members[0].name := members[0].data] + Content(members[1..])
  }

  lemma {:induction false} ContentHolds(members: seq<Member>)
    requires forall i, j | 0 <= i < j < |members| :: members[i].name != members[j].name
    ensures Holds(members, Content(members))
  {
    if members != [] {
      var rest := members[1..];
      ContentHolds(rest);
      forall i | 0 <= i < |members| ensures
        members[i].name in Content(members) && Content(members)[members[i].name] == members[i].data
      {
        if i == 0 {
          OtherNames(members);
        } else {
          assert members[i] == rest[i - 1];
        }
      }
      forall name | name in Content(members) ensures exists i :: 0 <= i < |members| && members[i].name == name {
        if name != members[0].name {
          var k :| 0 <= k < |rest| && rest[k].name == name;
          assert members[k + 1].name == name;
        }
      }
    }
  }

  lemma OtherNames(members: seq<Member>)
    requires members != [] && forall i, j | 0 <= i < j < |members| :: members[i].name != members[j].name
    requires Holds(members[1..], Content(members[1..]))
    ensures members[0].name !in Content(members[1..])
  {
    assert forall k | 1 <= k < |members| :: members[1..][k - 1] == members[k];
  }

  lemma HoldsOne(members: seq<Member>, a: map<Path, seq<byte>>, b: map<Path, seq<byte>>)
    requires Holds(members, a) && Holds(members, b)
    ensures a == b
  {
    forall name | name in a ensures name in b && b[name] == a[name] {
      var i :| 0 <= i < |members| && members[i].name == name;
    }
    forall name | name in b ensures name in a {
      var i :| 0 <= i < |members| && members[i].name == name;
    }
  }

  // ----- reading a layout

  lemma ReadsGap(before: seq<byte>, rest: seq<byte>, acc: map<Path, seq<byte>>)
    requires |rest| >= 512 && !AllZero(rest[..512])
    ensures ParseFrom(before + (Zeros(512) + rest), |before|, 0, acc)
      == ParseFrom(before + Zeros(512) + rest, |before + Zeros(512)|, 1, acc)
  {
    hide ParseHeader;
    var tar := before + (Zeros(512) + rest);
    assert tar == before + Zeros(512) + rest;
    assert tar[|before|..|before| + 512] == Zeros(512);
  }

  lemma ReadsMember(before: seq<byte>, e: Member, rest: seq<byte>, zeroBlocks: nat, acc: map<Path, seq<byte>>)
    requires IsMember(e) && e.name !in acc && zeroBlocks < 2
    ensures !AllZero(e.header)
    ensures var block := e.header + e.data + e.padding;
      ParseFrom(before + (block + rest), |before|, zeroBlocks, acc) ==
      ParseFrom(before + block + rest, |before + block|, 0, acc[e.name := e.data])
  {
    hide ParseHeader, HoldsNumber, StaysBelow, IsName, Sum;
    HeaderExactly(e.header, e.name, |e.data|);
    assert e.header[156] != 0;
    var block := e.header + e.data + e.padding;
    var tar := before + (block + rest);
    assert tar == before + block + rest;
    assert tar[|before|..|before| + 512] == e.header;
    assert tar[|before| + 512..|before| + 512 + |e.data|] == e.data;
    assert |e.padding| == Padding(|e.data|);
  }

  lemma ReadsBlocks(before: seq<byte>, e: Member, rest: seq<byte>, acc: map<Path, seq<byte>>)
    requires IsMember(e) && e.name !in acc
    ensures ParseFrom(before + (Blocks(e) + rest), |before|, 0, acc) ==
      ParseFrom(before + Blocks(e) + rest, |before + Blocks(e)|, 0, acc[e.name := e.data])
  {
    hide ParseFrom, IsMember, AllZero;
    var block := e.header + e.data + e.padding;
    assert |e.header| == 512 by { MemberHeader(e); }
    if e.gap {
      ReadsMember(before + Zeros(512), e, rest, 1, acc);
      assert (block + rest)[..512] == e.header;
      ReadsGap(before, block + rest, acc);
      assert Blocks(e) + rest == Zeros(512) + (block + rest);
      assert before + Blocks(e) == before + Zeros(512) + block;
    } else {
      ReadsMember(before, e, rest, 0, acc);
      assert Blocks(e) == block;
    }
  }

  lemma MemberHeader(e: Member)
    requires IsMember(e)
    ensures |e.header| == 512
  {
  }

  lemma {:induction false} LayoutReads(before: seq<byte>, members: seq<Member>, acc: map<Path, seq<byte>>)
    requires AreMembers(members) && forall i | 0 <= i < |members| :: members[i].name !in acc
    ensures ParseFrom(before + Layout(members), |before|, 0, acc) == Ok(acc + Content(members))
    decreases |members|
  {
    hide ParseFrom, IsMember, Blocks;
    if members == [] {
      EndReads(before, acc);
      assert acc + map[] == acc;
    } else {
      var e, rest := members[0], members[1..];
      ReadsBlocks(before, e, Layout(rest), acc);
      LayoutReads(before + Blocks(e), rest, acc[e.name := e.data]);
      assert acc[e.name := e.data] + Content(rest) == acc + (map[e.name := e.data] + Content(rest));
    }
  }

  // ----- and what is read has such a layout

  lemma MemberFound(tar: seq<byte>, offset: nat, zeroBlocks: nat, acc: map<Path, seq<byte>>) returns (e: Member)
    requires offset + 512 <= |tar| && !AllZero(tar[offset..offset + 512]) && zeroBlocks < 2
    requires ParseFrom(tar, offset, zeroBlocks, acc).Ok?
    ensures IsMember(e) && e.name !in acc && !e.gap
    ensures var next := offset + |Blocks(e)|;
      && next <= |tar| && tar[offset..next] == Blocks(e) && |Blocks(e)| > 0
      && ParseFrom(tar, offset, zeroBlocks, acc) == ParseFrom(tar, next, 0, acc[e.name := e.data])
  {
    hide ParseHeader, AllZero, HeaderSays;
    var header, start := tar[offset..offset + 512], offset + 512;
    var parsed := ParseHeader(header).value;
    HeaderExactly(header, parsed.path, parsed.size);
    var finish := start + parsed.size + Padding(parsed.size);
    NotShort(tar, finish, acc[parsed.path := tar[start..start + parsed.size]]);
    e := Member(false, parsed.path, header, tar[start..start + parsed.size], tar[start + parsed.size..finish]);
    assert tar[offset..finish] == Blocks(e);
  }

  lemma EndFound(tar: seq<byte>, offset: nat, acc: map<Path, seq<byte>>)
    requires offset + 1024 <= |tar| && AllZero(tar[offset..offset + 512]) && AllZero(tar[offset + 512..offset + 1024])
    requires ParseFrom(tar, offset, 0, acc).Ok?
    ensures tar[offset..] == Zeros(1024) && ParseFrom(tar, offset, 0, acc) == Ok(acc)
  {
    hide ParseHeader;
    assert ParseFrom(tar, offset, 0, acc) == ParseFrom(tar, offset + 512, 1, acc);
    assert ParseFrom(tar, offset + 512, 1, acc) == Finish(tar, offset + 1024, 2, acc);
    assert tar[offset..offset + 512] == Zeros(512) && tar[offset + 512..offset + 1024] == Zeros(512);
    assert tar[offset..] == tar[offset..offset + 512] + tar[offset + 512..offset + 1024];
  }

  lemma GapFound(tar: seq<byte>, offset: nat, acc: map<Path, seq<byte>>)
    requires offset + 512 <= |tar| && AllZero(tar[offset..offset + 512]) && ParseFrom(tar, offset, 0, acc).Ok?
    ensures offset + 1024 <= |tar| && tar[offset..offset + 512] == Zeros(512)
    ensures ParseFrom(tar, offset, 0, acc) == ParseFrom(tar, offset + 512, 1, acc)
  {
    hide ParseHeader;
    assert ParseFrom(tar, offset, 0, acc) == ParseFrom(tar, offset + 512, 1, acc);
  }

  lemma {:induction false} LayoutFound(tar: seq<byte>, offset: nat, acc: map<Path, seq<byte>>)
    returns (members: seq<Member>)
    requires offset <= |tar| && ParseFrom(tar, offset, 0, acc).Ok?
    ensures AreMembers(members) && forall i | 0 <= i < |members| :: members[i].name !in acc
    ensures tar[offset..] == Layout(members)
    decreases |tar| - offset
  {
    hide ParseFrom, IsMember, AllZero, Blocks;
    members := [];
    NotShort(tar, offset, acc);
    if AllZero(tar[offset..offset + 512]) {
      GapFound(tar, offset, acc);
      if AllZero(tar[offset + 512..offset + 1024]) {
        EndFound(tar, offset, acc);
        return;
      }
      var e := MemberFound(tar, offset + 512, 1, acc);
      var rest := LayoutFound(tar, offset + 512 + |Blocks(e)|, acc[e.name := e.data]);
      var gapped := e.(gap := true);
      WithGap(e);
      members := [gapped] + rest;
      assert tar[offset..] == tar[offset..offset + 512] + tar[offset + 512..];
      LayoutGrows(tar, offset + 512, e, rest);
      assert Zeros(512) + (Blocks(e) + Layout(rest)) == Blocks(gapped) + Layout(rest);
    } else {
      var e := MemberFound(tar, offset, 0, acc);
      var rest := LayoutFound(tar, offset + |Blocks(e)|, acc[e.name := e.data]);
      LayoutGrows(tar, offset, e, rest);
      members := [e] + rest;
    }
    assert members[1..] == members[1..];
  }

  lemma NotShort(tar: seq<byte>, offset: nat, acc: map<Path, seq<byte>>)
    requires ParseFrom(tar, offset, 0, acc).Ok?
    ensures offset + 512 <= |tar|
  {
    hide ParseHeader;
  }

  lemma WithGap(e: Member)
    requires !e.gap
    ensures Blocks(e.(gap := true)) == Zeros(512) + Blocks(e)
    ensures IsMember(e) ==> IsMember(e.(gap := true))
  {
    hide HeaderSays;
  }

  lemma LayoutGrows(tar: seq<byte>, offset: nat, e: Member, rest: seq<Member>)
    requires offset + |Blocks(e)| <= |tar| && tar[offset..offset + |Blocks(e)|] == Blocks(e)
    requires tar[offset + |Blocks(e)|..] == Layout(rest)
    ensures tar[offset..] == Blocks(e) + Layout(rest)
  {
    hide Layout, Blocks;
    assert tar[offset..] == tar[offset..offset + |Blocks(e)|] + tar[offset + |Blocks(e)|..];
  }

  // The reader accepts exactly the archives, and gives exactly their entries.
  lemma ReadExactly(tar: seq<byte>, entries: map<Path, seq<byte>>)
    ensures ParseFrom(tar, 0, 0, map[]) == Ok(entries) <==> IsArchive(tar, entries)
  {
    hide ParseFrom, Holds, Layout;
    if IsArchive(tar, entries) {
      var members :| AreMembers(members) && Holds(members, entries) && tar == Layout(members);
      MembersRead(tar, members, entries);
    }
    if ParseFrom(tar, 0, 0, map[]) == Ok(entries) {
      var members := LayoutFound(tar, 0, map[]);
      assert tar[0..] == tar;
      ContentHolds(members);
      MembersRead(tar, members, Content(members));
    }
  }

  lemma MembersRead(tar: seq<byte>, members: seq<Member>, entries: map<Path, seq<byte>>)
    requires AreMembers(members) && Holds(members, entries) && tar == Layout(members)
    ensures ParseFrom(tar, 0, 0, map[]) == Ok(entries)
  {
    hide ParseFrom, Layout, Holds, Content, IsMember;
    LayoutReads([], members, map[]);
    assert [] + tar == tar;
    NoneBefore(Content(members));
    ContentHolds(members);
    HoldsOne(members, entries, Content(members));
  }

  lemma NoneBefore(entries: map<Path, seq<byte>>)
    ensures map[] + entries == entries
  {
  }

  // ----- the bytes of a header written

  // The k-th octal digit of a number, from the right.
  function OctalDigit(n: nat, k: nat): nat {
    if k == 0 then n % 8 else OctalDigit(n / 8, k - 1)
  }

  ghost predicate IsField(s: seq<byte>, n: nat, width: nat) {
    && |s| == width && width > 0 && s[width - 1] == 0
    && forall k | 0 <= k < width - 1 :: s[k] == 0x30 + OctalDigit(n, width - 2 - k)
  }

  lemma {:induction false} PaddedDigits(n: nat, width: nat)
    requires |OctalText(n)| <= width
    ensures var all := Repeated(ZERO_DIGIT, width - |OctalText(n)|) + OctalText(n);
      forall k | 0 <= k < width :: all[k] == 0x30 + OctalDigit(n, width - 1 - k)
  {
    var text := OctalText(n);
    var all := Repeated(ZERO_DIGIT, width - |text|) + text;
    if n >= 8 {
      PaddedDigits(n / 8, width - 1);
      assert all == Repeated(ZERO_DIGIT, width - |text|) + OctalText(n / 8) + [ZERO_DIGIT + n % 8];
    } else {
      forall k | 0 <= k < width - 1 ensures all[k] == 0x30 + OctalDigit(n, width - 1 - k) {
        DigitOfZero(width - 2 - k);
      }
    }
  }

  lemma {:induction false} DigitOfZero(k: nat)
    ensures OctalDigit(0, k) == 0
  {
    if k > 0 {
      DigitOfZero(k - 1);
    }
  }

  lemma FieldDigits(n: nat, width: nat)
    requires OctalField(n, width).Some?
    ensures IsField(OctalField(n, width).value, n, width)
  {
    hide OctalText;
    PaddedDigits(n, width - 1);
  }

  ghost predicate ZeroBetween(s: seq<byte>, i: nat, j: nat) {
    forall k | i <= k < j && k < |s| :: s[k] == 0
  }

  ghost predicate FrontFields(h: seq<byte>, path: Path, size: nat)
    requires |h| >= 148
  {
    && |path| <= 100 && h[..|path|] == path && ZeroBetween(h, |path|, 100)
    && h[100..108] == [0x30, 0x30, 0x30, 0x30, 0x36, 0x34, 0x34, 0]
    && h[108..116] == [0x30, 0x30, 0x30, 0x30, 0x30, 0x30, 0x30, 0]
    && h[116..124] == [0x30, 0x30, 0x30, 0x30, 0x30, 0x30, 0x30, 0]
    && IsField(h[124..136], size, 12)
    && h[136..148] == [0x30, 0x30, 0x30, 0x30, 0x30, 0x30, 0x30, 0x30, 0x30, 0x30, 0x30, 0]
  }

  ghost predicate BackFields(h: seq<byte>)
    requires |h| == 512
  {
    && h[156] == 0x30 && ZeroBetween(h, 157, 257)
    && h[257..265] == [0x75, 0x73, 0x74, 0x61, 0x72, 0, 0x30, 0x30]
    && h[265..269] == [0x72, 0x6f, 0x6f, 0x74] && ZeroBetween(h, 269, 297)
    && h[297..301] == [0x72, 0x6f, 0x6f, 0x74] && ZeroBetween(h, 301, 329)
    && h[329..337] == [0x30, 0x30, 0x30, 0x30, 0x30, 0x30, 0x30, 0]
    && h[337..345] == [0x30, 0x30, 0x30, 0x30, 0x30, 0x30, 0x30, 0]
    && ZeroBetween(h, 345, 512)
  }

  lemma FrontBytes(path: Path, size: nat)
    requires |path| <= 100 && OctalField(size, 12).Some?
    ensures FrontFields(HeaderFront(path, OctalField(size, 12).value), path, size)
  {
    hide IsField;
    FieldDigits(size, 12);
    var h := HeaderFront(path, OctalField(size, 12).value);
    assert h[124..136] == OctalField(size, 12).value;
  }

  lemma BackBytes(front: seq<byte>)
    requires |front| == 156
    ensures BackFields(front + HeaderBack())
  {
  }

  lemma FrontStays(front: seq<byte>, back: seq<byte>, path: Path, size: nat)
    requires |front| == 148 && FrontFields(front, path, size)
    ensures FrontFields(front + back, path, size)
  {
    hide IsField;
    var h := front + back;
    assert h[..148] == front;
    assert h[..|path|] == front[..|path|];
    assert h[124..136] == front[124..136];
  }

  // Every byte of a header: path, literal fields, size and checksum in octal, zeros elsewhere.
  lemma HeaderBytes(path: Path, size: nat)
    requires TarHeader(path, size).Ok?
    ensures var h := TarHeader(path, size).value;
      && |h| == 512 && FrontFields(h, path, size) && BackFields(h)
      && IsField(h[148..156], Sum(h[..148]) + 256 + Sum(h[156..]), 8)
  {
    hide HeaderFront, HeaderBack, OctalField, Sum, SafePath, FrontFields, BackFields, IsField;
    var front := HeaderFront(path, OctalField(size, 12).value);
    var total := Sum(front + SPACES + HeaderBack());
    var checksum := OctalField(total, 8).value;
    var h := front + checksum + HeaderBack();
    HeaderSlices(path, OctalField(size, 12).value, checksum);
    FrontBytes(path, size);
    assert h == front + (checksum + HeaderBack());
    FrontStays(front, checksum + HeaderBack(), path, size);
    BackBytes(front + checksum);
    SpacesSum(h);
    FieldDigits(total, 8);
  }

  // The archive written: the entries in the order of the names, each padded with zeros only as
  // far as the next block.
  lemma {:induction false} ArchiveLayout(entries: map<Path, seq<byte>>, names: seq<Path>) returns (members: seq<Member>)
    requires forall n | n in names :: n in entries
    requires Archive(entries, names).Ok?
    ensures |members| == |names| && Archive(entries, names).value == Layout(members)
    ensures forall i | 0 <= i < |names| :: WrittenFor(members[i], names[i], entries[names[i]])
  {
    hide TarHeader, Archive, WrittenFor;
    members := [];
    if names == [] {
      NoEntries(entries);
    } else {
      var name := names[0];
      FirstEntry(entries, names);
      var rest := ArchiveLayout(entries, names[1..]);
      var first := WrittenMember(name, entries[name]);
      members := [first] + rest;
      assert members[1..] == rest;
    }
  }

  ghost predicate WrittenFor(e: Member, name: Path, data: seq<byte>) {
    && !e.gap && e.name == name && e.data == data && Ok(e.header) == TarHeader(name, |data|)
    && |e.padding| < 512 && (|data| + |e.padding|) % 512 == 0 && ZeroBetween(e.padding, 0, 512)
  }

  lemma WrittenMember(name: Path, data: seq<byte>) returns (e: Member)
    requires TarHeader(name, |data|).Ok?
    ensures WrittenFor(e, name, data) && Blocks(e) == TarHeader(name, |data|).value + data + Zeros(Padding(|data|))
  {
    hide TarHeader;
    e := Member(false, name, TarHeader(name, |data|).value, data, Zeros(Padding(|data|)));
  }
}
