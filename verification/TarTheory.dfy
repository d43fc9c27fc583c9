// Reading back what was written.
module TarTheory {
  import opened Wrappers
  import opened Bytes
  import opened Sorting
  import opened Tar

  function Pow8(k: nat): (p: nat)
    ensures p > 0
  {
    if k == 0 then 1 else 8 * Pow8(k - 1)
  }

  // ----- numbers

  lemma {:induction false} OctalReads(n: nat)
    ensures IsOctal(OctalText(n)) && OctalValue(OctalText(n)) == n
  {
    if n >= 8 {
      OctalReads(n / 8);
      var text := OctalText(n);
      assert text[..|text| - 1] == OctalText(n / 8);
    }
  }

  // A number fits a field exactly when it has at most that many digits.
  lemma {:induction false} OctalFits(n: nat, k: nat)
    requires k > 0
    ensures |OctalText(n)| <= k <==> n < Pow8(k)
  {
    if n >= 8 && k > 1 {
      OctalFits(n / 8, k - 1);
    }
  }

  lemma {:induction false} LeadingZeros(k: nat, text: seq<byte>)
    requires IsOctal(text)
    ensures IsOctal(Repeated(ZERO_DIGIT, k) + text)
    ensures OctalValue(Repeated(ZERO_DIGIT, k) + text) == OctalValue(text)
  {
    var all := Repeated(ZERO_DIGIT, k) + text;
    if text == [] {
      assert all == Repeated(ZERO_DIGIT, k);
      OnlyZeros(k);
    } else {
      var front := text[..|text| - 1];
      LeadingZeros(k, front);
      assert all[..|all| - 1] == Repeated(ZERO_DIGIT, k) + front;
    }
  }

  lemma {:induction false} OnlyZeros(k: nat)
    ensures IsOctal(Repeated(ZERO_DIGIT, k)) && OctalValue(Repeated(ZERO_DIGIT, k)) == 0
  {
    if k > 0 {
      OnlyZeros(k - 1);
      assert Repeated(ZERO_DIGIT, k)[..k - 1] == Repeated(ZERO_DIGIT, k - 1);
    }
  }

  lemma {:induction false} CutAtNul(s: seq<byte>, zeros: nat)
    requires 0 !in s
    ensures CutNul(s + Zeros(zeros)) == s
  {
    var all := s + Zeros(zeros);
    if s == [] {
      assert all == Zeros(zeros);
    } else {
      CutAtNul(s[1..], zeros);
      assert all[1..] == s[1..] + Zeros(zeros);
      assert s == [s[0]] + s[1..];
    }
  }

  lemma FieldReads(n: nat, width: nat)
    requires OctalField(n, width).Some?
    ensures ParseOctal(OctalField(n, width).value) == Ok(n)
  {
    hide OctalText, OctalValue, CutNul;
    var text := OctalText(n);
    var digits := Repeated(ZERO_DIGIT, width - 1 - |text|) + text;
    OctalReads(n);
    LeadingZeros(width - 1 - |text|, text);
    var field := OctalField(n, width).value;
    assert field == digits + Zeros(1);
    assert SevenBits(field) == field;
    CutAtNul(digits, 1);
  }

  // ----- one header

  lemma HeaderSlices(path: Path, size: seq<byte>, checksum: seq<byte>)
    requires |path| <= 100 && |size| == 12 && |checksum| == 8
    ensures var h := HeaderFront(path, size) + checksum + HeaderBack();
      && |h| == 512
      && h[..148] == HeaderFront(path, size) && h[148..156] == checksum && h[156..] == HeaderBack()
      && h[..100] == path + Zeros(100 - |path|) && h[124..136] == size
      && h[156] == ZERO_DIGIT && h[345..500] == Zeros(155)
  {
    hide HeaderFront, HeaderBack;
    var h := HeaderFront(path, size) + checksum + HeaderBack();
    assert h[..148] == HeaderFront(path, size) && h[156..] == HeaderBack();
    FrontSlices(path, size);
    assert h[..100] == HeaderFront(path, size)[..100] && h[124..136] == HeaderFront(path, size)[124..136];
    BackSlices();
    assert h[156] == HeaderBack()[0] && h[345..500] == HeaderBack()[189..344];
  }

  lemma FrontSlices(path: Path, size: seq<byte>)
    requires |path| <= 100 && |size| == 12
    ensures HeaderFront(path, size)[..100] == path + Zeros(100 - |path|)
    ensures HeaderFront(path, size)[124..136] == size
  {
  }

  lemma BackSlices()
    ensures HeaderBack()[0] == ZERO_DIGIT && HeaderBack()[189..344] == Zeros(155)
  {
    assert Magic()[0] == ZERO_DIGIT;
    assert HeaderBack()[189..344] == Owners()[80..235];
  }

  // The checksum leaves itself out, so the reader finds the same one.
  lemma HeaderReads(path: Path, size: nat)
    requires TarHeader(path, size).Ok? && 0 !in path
    ensures var h := TarHeader(path, size).value;
      |h| == 512 && !AllZero(h) && ParseHeader(h) == Ok(ParsedHeader(path, size))
  {
    hide HeaderFront, HeaderBack, OctalField, SafePath, ParseOctal, Sum, CutNul;
    var sizeField := OctalField(size, 12).value;
    var front := HeaderFront(path, sizeField);
    var checksum := OctalField(Sum(front + SPACES + HeaderBack()), 8).value;
    var h := front + checksum + HeaderBack();
    HeaderSlices(path, sizeField, checksum);
    FieldReads(size, 12);
    FieldReads(Sum(front + SPACES + HeaderBack()), 8);
    CutAtNul(path, 100 - |path|);
    CutAtNul([], 155);
    assert [] + Zeros(155) == Zeros(155);
    assert h[156] != 0;
  }

  // ----- one archive

  function Restricted(entries: map<Path, seq<byte>>, names: seq<Path>): map<Path, seq<byte>>
    requires forall n | n in names :: n in entries
  {
    map n | n in names :: entries[n]
  }

  lemma EndReads(before: seq<byte>, acc: map<Path, seq<byte>>)
    ensures ParseFrom(before + Zeros(1024), |before|, 0, acc) == Ok(acc)
  {
    hide ParseHeader;
    var tar := before + Zeros(1024);
    assert tar[|before|..|before| + 512] == Zeros(512);
    assert tar[|before| + 512..|before| + 512 + 512] == Zeros(512);
    assert ParseFrom(tar, |before| + 512, 1, acc) == Finish(tar, |before| + 1024, 2, acc);
  }

  lemma EntryReads(before: seq<byte>, name: Path, data: seq<byte>, rest: seq<byte>, acc: map<Path, seq<byte>>)
    requires TarHeader(name, |data|).Ok? && 0 !in name && name !in acc
    ensures var block := TarHeader(name, |data|).value + data + Zeros(Padding(|data|));
      ParseFrom(before + (block + rest), |before|, 0, acc) ==
      ParseFrom(before + block + rest, |before + block|, 0, acc[name := data])
  {
    hide TarHeader, ParseHeader, AllZero;
    HeaderReads(name, |data|);
    var h := TarHeader(name, |data|).value;
    var block := h + data + Zeros(Padding(|data|));
    var tar := before + (block + rest);
    assert tar == before + block + rest;
    assert tar[|before|..|before| + 512] == h;
    assert tar[|before| + 512..|before| + 512 + |data|] == data;
  }

  lemma {:induction false} ArchiveReads(
    entries: map<Path, seq<byte>>, names: seq<Path>, before: seq<byte>, acc: map<Path, seq<byte>>)
    requires forall n | n in names :: n in entries && 0 !in n && n !in acc
    requires forall i, j | 0 <= i < j < |names| :: names[i] != names[j]
    requires Archive(entries, names).Ok?
    ensures ParseFrom(before + Archive(entries, names).value, |before|, 0, acc) == Ok(acc + Restricted(entries, names))
    decreases |names|
  {
    hide TarHeader, ParseFrom, Archive, Restricted;
    RestrictedGrows(entries, names, acc);
    if names == [] {
      EndReads(before, acc);
      NoEntries(entries);
    } else {
      var name, later := names[0], names[1..];
      var data := entries[name];
      FirstEntry(entries, names);
      var rest := Archive(entries, later).value;
      var block := TarHeader(name, |data|).value + data + Zeros(Padding(|data|));
      EntryReads(before, name, data, rest, acc);
      ArchiveReads(entries, later, before + block, acc[name := data]);
    }
  }

  lemma NoEntries(entries: map<Path, seq<byte>>)
    ensures Archive(entries, []) == Ok(Zeros(1024))
  {
  }

  lemma FirstEntry(entries: map<Path, seq<byte>>, names: seq<Path>)
    requires names != [] && forall n | n in names :: n in entries
    requires Archive(entries, names).Ok?
    ensures var data := entries[names[0]];
      && TarHeader(names[0], |data|).Ok? && Archive(entries, names[1..]).Ok?
      && Archive(entries, names).value ==
        (TarHeader(names[0], |data|).value + data + Zeros(Padding(|data|))) + Archive(entries, names[1..]).value
  {
    hide TarHeader;
  }

  lemma RestrictedGrows(entries: map<Path, seq<byte>>, names: seq<Path>, acc: map<Path, seq<byte>>)
    requires forall n | n in names :: n in entries
    requires forall i, j | 0 <= i < j < |names| :: names[i] != names[j]
    ensures names == [] ==> acc + Restricted(entries, names) == acc
    ensures names != [] ==>
      acc[names[0] := entries[names[0]]] + Restricted(entries, names[1..]) == acc + Restricted(entries, names)
  {
    if names != [] {
      assert names == [names[0]] + names[1..];
    }
  }

  // ----- the round trip

  // What an archive can hold: a safe path of at most 100 bytes, and less than eight gibibytes.
  predicate Archivable(path: Path, data: seq<byte>) {
    SafePath(path) && |path| <= 100 && |data| < 8589934592
  }

  predicate PrintableAscii(path: Path) {
    forall i | 0 <= i < |path| :: 0x20 <= path[i] < 0x7f
  }

  lemma {:induction false} SumBound(s: seq<byte>)
    ensures Sum(s) <= 255 * |s|
  {
    if s != [] {
      SumBound(s[..|s| - 1]);
    }
  }

  lemma EightToEleven()
    ensures Pow8(11) == 8589934592 && Pow8(7) == 2097152
  {
    assert Pow8(4) == 4096;
    assert Pow8(7) == 512 * Pow8(4) by {
      assert Pow8(6) == 64 * Pow8(4);
    }
    assert Pow8(9) == 64 * Pow8(7);
    assert Pow8(11) == 64 * Pow8(9);
  }

  lemma HeaderWritten(path: Path, data: seq<byte>)
    ensures TarHeader(path, |data|).Ok? <==> Archivable(path, data)
  {
    hide SafePath, OctalText, Sum, HeaderFront, HeaderBack, Pow8;
    EightToEleven();
    OctalFits(|data|, 11);
    if SafePath(path) && |path| <= 100 && OctalField(|data|, 12).Some? {
      var all := HeaderFront(path, OctalField(|data|, 12).value) + SPACES + HeaderBack();
      SumBound(all);
      OctalFits(Sum(all), 7);
    }
  }

  lemma {:induction false} ArchiveWritten(entries: map<Path, seq<byte>>, names: seq<Path>)
    requires forall n | n in names :: n in entries
    ensures Archive(entries, names).Ok? <==> forall n | n in names :: Archivable(n, entries[n])
  {
    hide TarHeader, Archivable;
    if names != [] {
      HeaderWritten(names[0], entries[names[0]]);
      ArchiveWritten(entries, names[1..]);
      assert names == [names[0]] + names[1..];
    }
  }

  lemma SortedDistinct(keys: seq<Path>)
    requires forall i, j | 0 <= i < j < |keys| :: keys[i] != keys[j]
    ensures StrictlySorted(PathLess, Sort(PathLess, keys))
    ensures forall i, j | 0 <= i < j < |Sort(PathLess, keys)| :: Sort(PathLess, keys)[i] != Sort(PathLess, keys)[j]
  {
    hide Less, Order;
    PathOrder();
    forall i, j | 0 <= i < j < |keys| ensures PathLess(keys[i], keys[j]) || PathLess(keys[j], keys[i]) {
      LessTotal(keys[i], keys[j]);
    }
    SortStrictly(PathLess, keys);
    var names := Sort(PathLess, keys);
    forall i, j | 0 <= i < j < |names| ensures names[i] != names[j] {
      assert PathLess(names[i], names[j]);
      LessAsymmetric(names[i], names[j]);
    }
  }

  lemma PathOrder()
    ensures Order(PathLess)
  {
    hide Less;
    forall a: Path, b: Path ensures PathLess(a, b) ==> !PathLess(b, a) {
      if Less(a, b) {
        LessAsymmetric(a, b);
      }
    }
    forall a: Path, b: Path, c: Path ensures !PathLess(b, a) && !PathLess(c, b) ==> !PathLess(c, a) {
      if !Less(b, a) && !Less(c, b) && Less(c, a) {
        LessTotal(a, b);
        LessTotal(b, c);
        if b != a && c != b {
          LessTransitive(a, b, c);
          LessAsymmetric(a, c);
        }
      }
    }
  }

  // An archive can be made exactly of archivable entries; and what is read back is exactly what
  // was archived, whatever the order in which the keys were listed.
  lemma TarRoundTrip(entries: map<Path, seq<byte>>, keys: seq<Path>)
    requires AreKeys(entries, keys)
    ensures forall n | n in Sort(PathLess, keys) :: n in entries
    ensures Archive(entries, Sort(PathLess, keys)).Ok? <==> forall n | n in entries :: Archivable(n, entries[n])
    ensures Archive(entries, Sort(PathLess, keys)).Ok? && (forall n | n in entries :: PrintableAscii(n)) ==>
      ParseFrom(Archive(entries, Sort(PathLess, keys)).value, 0, 0, map[]) == Ok(entries)
  {
    hide Archivable, ParseFrom, Archive, StrictlySorted, Sort, PrintableAscii;
    var names := Sort(PathLess, keys);
    SortedKeys(entries, keys);
    SortedDistinct(keys);
    ArchiveWritten(entries, names);
    if Archive(entries, names).Ok? && forall n | n in entries :: PrintableAscii(n) {
      ReadsBack(entries, names);
    }
  }

  lemma ReadsBack(entries: map<Path, seq<byte>>, names: seq<Path>)
    requires forall n :: n in names <==> n in entries
    requires forall i, j | 0 <= i < j < |names| :: names[i] != names[j]
    requires Archive(entries, names).Ok? && forall n | n in entries :: PrintableAscii(n)
    ensures ParseFrom(Archive(entries, names).value, 0, 0, map[]) == Ok(entries)
  {
    hide ParseFrom, Archive;
    var tar := Archive(entries, names).value;
    ArchiveReads(entries, names, [], map[]);
    assert [] + tar == tar;
    assert map[] + Restricted(entries, names) == entries;
  }
}
