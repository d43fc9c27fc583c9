// The hand-written tar archive of the release scripts: writer and reader.
module Tar {
  import opened Wrappers
  import opened Bytes
  import opened Sorting

  // Paths are taken as their ASCII bytes.
  type Path = seq<byte>

  datatype ArchiveError =
    | UnsafePath
    | FieldTooLong
    | FieldTooLarge
    | BadNumber
    | BadChecksum
    | NotRegular
    | Truncated
    | DuplicateEntry
    | BadTermination

  const SLASH: byte := 0x2f
  const ZERO_DIGIT: byte := 0x30

  function Repeated(b: byte, k: nat): (s: seq<byte>)
    ensures |s| == k && forall i | 0 <= i < k :: s[i] == b
  {
    seq(k, i => b)
  }

  function Zeros(k: nat): (s: seq<byte>)
    ensures |s| == k && forall i | 0 <= i < k :: s[i] == 0
  {
    Repeated(0, k)
  }

  // ----- safe relative paths

  // The parts between slashes.
  function Split(path: Path): (r: seq<Path>)
    ensures r != []
  {
    if path == [] then [[]]
    else
      var parts := Split(path[..|path| - 1]);
      var c := path[|path| - 1];
      if c == SLASH then parts + [[]] else parts[|parts| - 1 := parts[|parts| - 1] + [c]]
  }

  predicate SafePath(path: Path) {
    && path != []
    && 0x5c !in path && 0x0a !in path && 0x0d !in path
    && path[0] != SLASH
    && [] !in Split(path) && [0x2e] !in Split(path) && [0x2e, 0x2e] !in Split(path)
  }

  // ----- numbers

  function OctalText(n: nat): (s: seq<byte>)
    ensures s != []
  {
    if n < 8 then [ZERO_DIGIT + n] else OctalText(n / 8) + [ZERO_DIGIT + n % 8]
  }

  function OctalField(n: nat, width: nat): (r: Option<seq<byte>>)
    ensures r.Some? ==> |r.value| == width
  {
    var text := OctalText(n);
    if |text| + 1 > width then None else Some(Repeated(ZERO_DIGIT, width - 1 - |text|) + text + [0])
  }

  // `replace(/\0.*$/, "")`: from the first NUL that no line break follows.
  function CutNul(s: seq<byte>): seq<byte> {
    if s == [] then []
    else if s[0] == 0 && 0x0a !in s && 0x0d !in s then []
    else [s[0]] + CutNul(s[1..])
  }

  predicate IsBlank(b: byte) {
    b == 0x20 || 0x09 <= b <= 0x0d
  }

  function TrimStart(s: seq<byte>): seq<byte> {
    if s != [] && IsBlank(s[0]) then TrimStart(s[1..]) else s
  }

  function TrimEnd(s: seq<byte>): seq<byte> {
    if s != [] && IsBlank(s[|s| - 1]) then TrimEnd(s[..|s| - 1]) else s
  }

  // `toString("ascii")` clears the top bit.
  function SevenBits(s: seq<byte>): (r: seq<byte>)
    ensures |r| == |s| && forall i | 0 <= i < |s| :: r[i] == s[i] % 128
  {
    seq(|s|, i requires 0 <= i < |s| => s[i] % 128)
  }

  predicate IsOctal(s: seq<byte>) {
    forall i | 0 <= i < |s| :: ZERO_DIGIT <= s[i] < ZERO_DIGIT + 8
  }

  function OctalValue(s: seq<byte>): nat
    requires IsOctal(s)
  {
    if s == [] then 0 else 8 * OctalValue(s[..|s| - 1]) + (s[|s| - 1] - ZERO_DIGIT)
  }

  function ParseOctal(s: seq<byte>): Result<nat, ArchiveError> {
    var text := TrimEnd(TrimStart(CutNul(SevenBits(s))));
    if IsOctal(text) then Ok(OctalValue(text)) else Err(BadNumber)
  }

  // ----- headers

  function Sum(s: seq<byte>): nat {
    if s == [] then 0 else Sum(s[..|s| - 1]) + s[|s| - 1]
  }

  const SPACES: seq<byte> := Repeated(0x20, 8)
  const MODE: seq<byte> := [0x30, 0x30, 0x30, 0x30, 0x36, 0x34, 0x34, 0]
  const NONE8: seq<byte> := [0x30, 0x30, 0x30, 0x30, 0x30, 0x30, 0x30, 0]
  const NONE12: seq<byte> := [0x30, 0x30, 0x30, 0x30] + NONE8
  const USTAR: seq<byte> := [0x75, 0x73, 0x74, 0x61, 0x72, 0]
  const ROOT: seq<byte> := [0x72, 0x6f, 0x6f, 0x74]

  // The fields before the checksum: path, mode, owner, group, size and time.
  function HeaderFront(path: Path, size: seq<byte>): (s: seq<byte>)
    requires |path| <= 100 && |size| == 12
    ensures |s| == 148
  {
    path + Zeros(100 - |path|) + MODE + NONE8 + NONE8 + size + NONE12
  }

  // The fields after it: type, link, magic, version, names, devices and prefix.
  function HeaderBack(): (s: seq<byte>)
    ensures |s| == 356
  {
    Magic() + Owners()
  }

  function Magic(): (s: seq<byte>)
    ensures |s| == 109
  {
    [ZERO_DIGIT] + Zeros(100) + USTAR + [0x30, 0x30]
  }

  function Owners(): (s: seq<byte>)
    ensures |s| == 247
  {
    ROOT + Zeros(28) + ROOT + Zeros(28) + NONE8 + NONE8 + Zeros(167)
  }

  function TarHeader(path: Path, size: nat): Result<seq<byte>, ArchiveError> {
    if !SafePath(path) then Err(UnsafePath)
    else if |path| > 100 then Err(FieldTooLong)
    else
      var sizeField := OctalField(size, 12);
      if sizeField.None? then Err(FieldTooLarge)
      else
        var front := HeaderFront(path, sizeField.value);
        var checksum := OctalField(Sum(front + SPACES + HeaderBack()), 8);
        if checksum.None? then Err(FieldTooLarge) else Ok(front + checksum.value + HeaderBack())
  }

  // ----- archives

  function Padding(size: nat): (p: nat)
    ensures p < 512 && (size + p) % 512 == 0
  {
    (512 - size % 512) % 512
  }

  // The archive of the named entries, in order, without gzip.
  function Archive(entries: map<Path, seq<byte>>, names: seq<Path>): Result<seq<byte>, ArchiveError>
    requires forall n | n in names :: n in entries
  {
    if names == [] then Ok(Zeros(1024))
    else
      var data := entries[names[0]];
      var header :- TarHeader(names[0], |data|);
      var rest :- Archive(entries, names[1..]);
      Ok(header + data + Zeros(Padding(|data|)) + rest)
  }

  // `keys` is what `Object.keys` lists.
  ghost predicate AreKeys(entries: map<Path, seq<byte>>, keys: seq<Path>) {
    && (forall n :: n in keys <==> n in entries)
    && (forall i, j | 0 <= i < j < |keys| :: keys[i] != keys[j])
  }

  predicate PathLess(a: Path, b: Path) {
    Less(a, b)
  }

  // ----- reading

  predicate AllZero(s: seq<byte>) {
    forall i | 0 <= i < |s| :: s[i] == 0
  }

  function HeaderPath(header: seq<byte>): Path
    requires |header| == 512
  {
    var name, prefix := CutNul(header[..100]), CutNul(header[345..500]);
    if prefix == [] then name else prefix + [SLASH] + name
  }

  datatype ParsedHeader = ParsedHeader(path: Path, size: nat)

  function ParseHeader(header: seq<byte>): Result<ParsedHeader, ArchiveError>
    requires |header| == 512
  {
    var supplied :- ParseOctal(header[148..156]);
    if supplied != Sum(header[..148] + SPACES + header[156..]) then Err(BadChecksum) else
    var path := HeaderPath(header);
    if !SafePath(path) then Err(UnsafePath) else
    if header[156] != ZERO_DIGIT then Err(NotRegular) else
    var size :- ParseOctal(header[124..136]);
    Ok(ParsedHeader(path, size))
  }

  function Finish(tar: seq<byte>, offset: nat, zeroBlocks: nat, entries: map<Path, seq<byte>>)
    : Result<map<Path, seq<byte>>, ArchiveError>
  {
    if zeroBlocks != 2 || offset != |tar| then Err(BadTermination) else Ok(entries)
  }

  // The reader from a given state on.
  function ParseFrom(tar: seq<byte>, offset: nat, zeroBlocks: nat, entries: map<Path, seq<byte>>)
    : Result<map<Path, seq<byte>>, ArchiveError>
    decreases |tar| - offset
  {
    if offset + 512 > |tar| then Finish(tar, offset, zeroBlocks, entries)
    else
      var header, next := tar[offset..offset + 512], offset + 512;
      if AllZero(header) then
        if zeroBlocks + 1 == 2 then Finish(tar, next, 2, entries) else ParseFrom(tar, next, zeroBlocks + 1, entries)
      else
        var parsed :- ParseHeader(header);
        if next + parsed.size > |tar| then Err(Truncated)
        else if parsed.path in entries then Err(DuplicateEntry)
        else
          ParseFrom(tar, next + parsed.size + Padding(parsed.size), 0,
            entries[parsed.path := tar[next..next + parsed.size]])
  }

  // ----- the loops

  // One field into the header buffer, whose rest is still zero.
  method WriteField(header: array<byte>, ghost done: seq<byte>, offset: nat, bytes: seq<byte>)
    returns (ghost grown: seq<byte>)
    requires header.Length == 512 && |done| <= offset && offset + |bytes| <= 512
    requires header[..] == done + Zeros(512 - |done|)
    modifies header
    ensures grown == done + Zeros(offset - |done|) + bytes && |grown| == offset + |bytes|
    ensures header[..] == grown + Zeros(512 - |grown|)
  {
    ghost var was := header[..];
    grown := done + Zeros(offset - |done|) + bytes;
    for i := 0 to |bytes|
      invariant forall k | 0 <= k < offset :: header[k] == was[k]
      invariant forall k | 0 <= k < i :: header[offset + k] == bytes[k]
      invariant forall k | offset + i <= k < 512 :: header[k] == was[k]
    {
      header[offset + i] := bytes[i];
    }
  }

  method WriteTarHeader(path: Path, size: nat) returns (r: Result<seq<byte>, ArchiveError>)
    ensures r == TarHeader(path, size)
  {
    hide SafePath, OctalText, OctalField, Sum, Zeros, HeaderFront, HeaderBack, Magic, Owners;
    if !SafePath(path) {
      return Err(UnsafePath);
    }
    if |path| > 100 {
      return Err(FieldTooLong);
    }
    var sizeField := OctalField(size, 12);
    if sizeField.None? {
      return Err(FieldTooLarge);
    }
    var header := new byte[512](i => 0);
    assert header[..] == [] + Zeros(512);
    ghost var done := WriteFront(header, path, sizeField.value);
    done := WriteField(header, done, 148, SPACES);
    done := WriteMagic(header, done);
    done := WriteOwners(header, done);
    assert header[..] == HeaderFront(path, sizeField.value) + SPACES + HeaderBack() by {
      BackInParts(HeaderFront(path, sizeField.value) + SPACES);
    }
    var checksum := OctalField(Sum(header[..]), 8);
    if checksum.None? {
      return Err(FieldTooLarge);
    }
    ReplaceChecksum(header, checksum.value, HeaderFront(path, sizeField.value));
    r := Ok(header[..]);
  }

  lemma BackInParts(before: seq<byte>)
    ensures before + Magic() + Owners() == before + HeaderBack()
  {
    hide Magic, Owners;
  }

  method WriteFront(header: array<byte>, path: Path, size: seq<byte>) returns (ghost done: seq<byte>)
    requires header.Length == 512 && header[..] == [] + Zeros(512) && |path| <= 100 && |size| == 12
    modifies header
    ensures done == HeaderFront(path, size) && header[..] == done + Zeros(364)
  {
    hide Zeros;
    done := WriteField(header, [], 0, path);
    done := WriteField(header, done, 100, MODE);
    done := WriteField(header, done, 108, NONE8);
    done := WriteField(header, done, 116, NONE8);
    done := WriteField(header, done, 124, size);
    done := WriteField(header, done, 136, NONE12);
    assert done == HeaderFront(path, size);
  }

  method WriteMagic(header: array<byte>, ghost done: seq<byte>) returns (ghost grown: seq<byte>)
    requires header.Length == 512 && |done| == 156 && header[..] == done + Zeros(356)
    modifies header
    ensures grown == done + Magic() && header[..] == grown + Zeros(247)
  {
    hide Zeros;
    grown := WriteField(header, done, 156, [ZERO_DIGIT]);
    grown := WriteField(header, grown, 257, USTAR);
    grown := WriteField(header, grown, 263, [0x30, 0x30]);
    assert grown == done + Magic();
  }

  method WriteOwners(header: array<byte>, ghost done: seq<byte>) returns (ghost grown: seq<byte>)
    requires header.Length == 512 && |done| == 265 && header[..] == done + Zeros(247)
    modifies header
    ensures grown == header[..] == done + Owners()
  {
    hide Zeros;
    grown := WriteField(header, done, 265, ROOT);
    grown := WriteField(header, grown, 297, ROOT);
    grown := WriteField(header, grown, 329, NONE8);
    grown := WriteField(header, grown, 337, NONE8);
    grown := grown + Zeros(167);
    assert grown == done + Owners();
  }

  method ReplaceChecksum(header: array<byte>, checksum: seq<byte>, ghost front: seq<byte>)
    requires header.Length == 512 && |checksum| == 8 && |front| == 148
    requires header[..] == front + SPACES + HeaderBack()
    modifies header
    ensures header[..] == front + checksum + HeaderBack()
  {
    hide HeaderBack;
    ghost var was := header[..];
    for i := 0 to 8
      invariant forall k | 0 <= k < 148 || 148 + i <= k < 512 :: header[k] == was[k]
      invariant forall k | 0 <= k < i :: header[148 + k] == checksum[k]
    {
      header[148 + i] := checksum[i];
    }
  }

  // `createTarGz` up to the compression.
  method CreateTar(entries: map<Path, seq<byte>>, keys: seq<Path>) returns (r: Result<seq<byte>, ArchiveError>)
    requires AreKeys(entries, keys)
    ensures forall n | n in Sort(PathLess, keys) :: n in entries
    ensures r == Archive(entries, Sort(PathLess, keys))
  {
    hide TarHeader, AreKeys;
    var names := Sort(PathLess, keys);
    SortedKeys(entries, keys);
    var chunks: seq<byte> := [];
    assert names[0..] == names;
    assert Archive(entries, names).Ok? ==> [] + Archive(entries, names).value == Archive(entries, names).value;
    for i := 0 to |names|
      invariant match Archive(entries, names[i..])
        case Ok(rest) => Archive(entries, names) == Ok(chunks + rest)
        case Err(e) => Archive(entries, names) == Err(e)
    {
      var name := names[i];
      assert names[i..][0] == name && names[i..][1..] == names[i + 1..];
      var bytes := entries[name];
      var header := WriteTarHeader(name, |bytes|);
      if header.Err? {
        return Err(header.error);
      }
      ghost var before := chunks;
      chunks := chunks + header.value + bytes + Zeros(Padding(|bytes|));
      ChunksAppend(before, header.value, bytes, Zeros(Padding(|bytes|)), Archive(entries, names[i + 1..]));
    }
    r := Ok(chunks + Zeros(1024));
  }

  lemma SortedKeys(entries: map<Path, seq<byte>>, keys: seq<Path>)
    requires AreKeys(entries, keys)
    ensures forall n :: n in Sort(PathLess, keys) <==> n in entries
  {
    SortPermutes(PathLess, keys);
    PermutationMembers(Sort(PathLess, keys), keys);
  }

  lemma ChunksAppend(chunks: seq<byte>, header: seq<byte>, bytes: seq<byte>, padding: seq<byte>,
    rest: Result<seq<byte>, ArchiveError>)
    ensures rest.Ok? ==> chunks + (header + bytes + padding + rest.value) == chunks + header + bytes + padding + rest.value
  {
  }

  // `parseTarGz` after the decompression.
  method ParseTar(tar: seq<byte>) returns (r: Result<map<Path, seq<byte>>, ArchiveError>)
    ensures r == ParseFrom(tar, 0, 0, map[])
  {
    hide ParseHeader;
    var entries: map<Path, seq<byte>> := map[];
    var offset := 0;
    var zeroBlocks := 0;
    while offset + 512 <= |tar|
      invariant 0 <= offset && 0 <= zeroBlocks < 2
      invariant ParseFrom(tar, 0, 0, map[]) == ParseFrom(tar, offset, zeroBlocks, entries)
      decreases |tar| - offset
    {
      var header := tar[offset..offset + 512];
      offset := offset + 512;
      if AllZero(header) {
        zeroBlocks := zeroBlocks + 1;
        if zeroBlocks == 2 {
          break;
        }
        continue;
      }
      zeroBlocks := 0;
      var parsed :- ParseHeader(header);
      if offset + parsed.size > |tar| {
        return Err(Truncated);
      }
      if parsed.path in entries {
        return Err(DuplicateEntry);
      }
      entries := entries[parsed.path := tar[offset..offset + parsed.size]];
      offset := offset + parsed.size + Padding(parsed.size);
    }
    r := Finish(tar, offset, zeroBlocks, entries);
  }
}
