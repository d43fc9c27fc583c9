// What a safe path is, byte by byte, and where it leads.
module TarPaths {
  import opened Wrappers
  import opened Bytes
  import opened Tar

  // path[i..j] is a maximal piece without slashes.
  ghost predicate IsPiece(path: Path, i: int, j: int) {
    && 0 <= i <= j <= |path|
    && (forall k | i <= k < j :: path[k] != 0x2f)
    && (i > 0 ==> path[i - 1] == 0x2f)
    && (j < |path| ==> path[j] == 0x2f)
  }

  // Not empty, not absolute, no backslash or line break, and every piece names something below.
  ghost predicate StaysBelow(path: Path) {
    && |path| > 0
    && (forall k | 0 <= k < |path| :: path[k] != 0x5c && path[k] != 0x0a && path[k] != 0x0d)
    && path[0] != 0x2f
    && forall i, j | IsPiece(path, i, j) ::
      i < j && !(j == i + 1 && path[i] == 0x2e) && !(j == i + 2 && path[i] == 0x2e && path[i + 1] == 0x2e)
  }

  // Every maximal piece is a part, the one at the end the last.
  lemma {:induction false} PieceIsPart(path: Path, i: int, j: int)
    requires IsPiece(path, i, j)
    ensures j == |path| ==> path[i..j] == Split(path)[|Split(path)| - 1]
    ensures j < |path| ==> path[i..j] in Split(path)[..|Split(path)| - 1]
  {
    if path != [] {
      var last := |path| - 1;
      var front := path[..last];
      if path[last] == SLASH {
        assert Split(path)[..|Split(path)| - 1] == Split(front);
        if j <= last {
          assert IsPiece(front, i, j) && front[i..j] == path[i..j];
          PieceIsPart(front, i, j);
        }
      } else if j == |path| {
        assert IsPiece(front, i, last);
        PieceIsPart(front, i, last);
        assert path[i..j] == front[i..last] + [path[last]];
      } else {
        assert IsPiece(front, i, j) && front[i..j] == path[i..j];
        PieceIsPart(front, i, j);
      }
    }
  }

  // And every part is a maximal piece.
  lemma {:induction false} PartIsPiece(path: Path, k: nat) returns (i: nat, j: nat)
    requires k < |Split(path)|
    ensures IsPiece(path, i, j) && path[i..j] == Split(path)[k]
    ensures k == |Split(path)| - 1 <==> j == |path|
  {
    if path == [] {
      return 0, 0;
    }
    var last := |path| - 1;
    var front := path[..last];
    if path[last] == SLASH {
      if k == |Split(front)| {
        return |path|, |path|;
      }
      i, j := PartIsPiece(front, k);
      assert path[i..j] == front[i..j];
    } else {
      i, j := PartIsPiece(front, k);
      if k == |Split(front)| - 1 {
        assert path[i..|path|] == front[i..j] + [path[last]];
        j := |path|;
      } else {
        assert path[i..j] == front[i..j];
      }
    }
  }

  lemma ShortPieces(path: Path, i: nat, j: nat)
    requires i <= j <= |path|
    ensures j == i ==> path[i..j] == []
    ensures j == i + 1 ==> path[i..j] == [path[i]]
    ensures j == i + 2 ==> path[i..j] == [path[i], path[i + 1]]
  {
  }

  lemma InSplit(path: Path, part: Path)
    requires part in Split(path)[..|Split(path)| - 1] || part == Split(path)[|Split(path)| - 1]
    ensures part in Split(path)
  {
  }

  // The test of the source accepts exactly the paths that stay below.
  lemma SafeExactly(path: Path)
    ensures SafePath(path) <==> StaysBelow(path)
  {
    hide Split;
    if SafePath(path) {
      forall i, j | IsPiece(path, i, j)
        ensures i < j && !(j == i + 1 && path[i] == 0x2e) && !(j == i + 2 && path[i] == 0x2e && path[i + 1] == 0x2e)
      {
        PieceIsPart(path, i, j);
        ShortPieces(path, i, j);
        InSplit(path, path[i..j]);
      }
    }
    if StaysBelow(path) {
      forall part | part in Split(path) ensures part != [] && part != [0x2e] && part != [0x2e, 0x2e] {
        var k :| 0 <= k < |Split(path)| && Split(path)[k] == part;
        var i, j := PartIsPiece(path, k);
      }
    }
  }

  // ----- where a path leads

  // One step of a walk from a directory: nothing, up, or down.
  function Enter(directory: seq<Path>, part: Path): seq<Path> {
    if part == [] || part == [0x2e] then directory
    else if part == [0x2e, 0x2e] then (if directory == [] then [] else directory[..|directory| - 1])
    else directory + [part]
  }

  // The walk along the first n bytes: the directory reached, and the piece being read.
  function Walk(directory: seq<Path>, path: Path, n: nat): (seq<Path>, Path)
    requires n <= |path|
  {
    if n == 0 then (directory, [])
    else
      var (at, piece) := Walk(directory, path, n - 1);
      if path[n - 1] == SLASH then (Enter(at, piece), []) else (at, piece + [path[n - 1]])
  }

  function Resolve(directory: seq<Path>, path: Path): seq<Path> {
    var (at, piece) := Walk(directory, path, |path|);
    Enter(at, piece)
  }

  lemma {:induction false} WalkAlong(directory: seq<Path>, path: Path, n: nat)
    requires SafePath(path) && n <= |path|
    ensures var parts := Split(path[..n]);
      Walk(directory, path, n) == (directory + parts[..|parts| - 1], parts[|parts| - 1])
  {
    hide SafePath;
    if n > 0 {
      WalkAlong(directory, path, n - 1);
      var before := Split(path[..n - 1]);
      assert path[..n][..n - 1] == path[..n - 1];
      if path[n - 1] == SLASH {
        FinishedPart(path, n - 1);
        assert before == before[..|before| - 1] + [before[|before| - 1]];
        assert Split(path[..n])[..|before|] == before;
        assert (directory + before[..|before| - 1]) + [before[|before| - 1]] == directory + before;
      } else {
        assert Split(path[..n])[..|before| - 1] == before[..|before| - 1];
      }
    } else {
      assert directory + [] == directory;
    }
  }

  // At a slash and at the end the piece just read is a part of the whole.
  lemma FinishedPart(path: Path, n: nat)
    requires SafePath(path) && n <= |path| && (n < |path| ==> path[n] == SLASH)
    ensures var parts := Split(path[..n]); Enter([], parts[|parts| - 1]) == [parts[|parts| - 1]]
    ensures var parts := Split(path[..n]);
      parts[|parts| - 1] != [] && parts[|parts| - 1] != [0x2e] && parts[|parts| - 1] != [0x2e, 0x2e]
  {
    hide Split;
    var parts := Split(path[..n]);
    var i, j := PartIsPiece(path[..n], |parts| - 1);
    assert IsPiece(path, i, n) && path[i..n] == path[..n][i..j];
    PieceIsPart(path, i, n);
    assert parts[|parts| - 1] in Split(path);
  }

  // A safe path followed from any directory never goes up: every directory on the way is the
  // first or below it, and the end is strictly below, by the parts of the path.
  lemma SafeStaysBelow(directory: seq<Path>, path: Path, n: nat)
    requires SafePath(path) && n <= |path|
    ensures directory <= Walk(directory, path, n).0
    ensures Resolve(directory, path) == directory + Split(path) && directory < Resolve(directory, path)
  {
    hide SafePath, Split;
    WalkAlong(directory, path, n);
    WalkAlong(directory, path, |path|);
    FinishedPart(path, |path|);
    assert path[..|path|] == path;
    var parts := Split(path);
    assert parts == parts[..|parts| - 1] + [parts[|parts| - 1]];
  }

  // Joining the parts with slashes gives the path back, so different safe paths lead to
  // different places.
  function Join(parts: seq<Path>): Path {
    if parts == [] then [] else if |parts| == 1 then parts[0] else Join(parts[..|parts| - 1]) + [SLASH] + parts[|parts| - 1]
  }

  lemma {:induction false} JoinSplit(path: Path)
    ensures Join(Split(path)) == path
  {
    if path != [] {
      var last := |path| - 1;
      var front := path[..last];
      var parts := Split(front);
      JoinSplit(front);
      assert path == front + [path[last]];
      if path[last] == SLASH {
        assert Split(path)[..|parts|] == parts;
      } else {
        assert Split(path)[..|parts| - 1] == parts[..|parts| - 1];
      }
    }
  }

  lemma SafeLeadsApart(directory: seq<Path>, a: Path, b: Path)
    requires SafePath(a) && SafePath(b) && Resolve(directory, a) == Resolve(directory, b)
    ensures a == b
  {
    hide SafePath, Split, Join, Resolve;
    SafeStaysBelow(directory, a, 0);
    SafeStaysBelow(directory, b, 0);
    var n := |directory|;
    assert Split(a) == (directory + Split(a))[n..] == (directory + Split(b))[n..] == Split(b);
    JoinSplit(a);
    JoinSplit(b);
  }

  // ----- what the reader returns

  lemma {:induction false} NamesSafe(tar: seq<byte>, offset: nat, zeroBlocks: nat, entries: map<Path, seq<byte>>)
    requires forall name | name in entries :: SafePath(name)
    ensures ParseFrom(tar, offset, zeroBlocks, entries).Ok? ==>
      forall name | name in ParseFrom(tar, offset, zeroBlocks, entries).value :: SafePath(name)
    decreases |tar| - offset
  {
    hide SafePath, ParseHeader, AllZero;
    if offset + 512 <= |tar| {
      var header, next := tar[offset..offset + 512], offset + 512;
      if AllZero(header) {
        NamesSafe(tar, next, zeroBlocks + 1, entries);
      } else if ParseHeader(header).Ok? {
        var parsed := ParseHeader(header).value;
        HeaderPathSafe(header);
        if next + parsed.size <= |tar| && parsed.path !in entries {
          NamesSafe(tar, next + parsed.size + Padding(parsed.size), 0,
            entries[parsed.path := tar[next..next + parsed.size]]);
        }
      }
    }
  }

  lemma HeaderPathSafe(header: seq<byte>)
    requires |header| == 512 && ParseHeader(header).Ok?
    ensures SafePath(ParseHeader(header).value.path)
  {
    hide SafePath, HeaderPath, ParseOctal, Sum;
  }

  // Every name in an archive that is read stays below the directory it is taken to, and no two
  // entries lead to the same place.
  lemma ReadStaysBelow(tar: seq<byte>, directory: seq<Path>, name: Path)
    requires ParseFrom(tar, 0, 0, map[]).Ok? && name in ParseFrom(tar, 0, 0, map[]).value
    ensures StaysBelow(name) && directory < Resolve(directory, name)
    ensures forall n: nat | n <= |name| :: directory <= Walk(directory, name, n).0
    ensures forall other | other in ParseFrom(tar, 0, 0, map[]).value && Resolve(directory, other) == Resolve(directory, name) ::
      other == name
  {
    hide SafePath, StaysBelow, Walk, ParseFrom, Resolve;
    NamesSafe(tar, 0, 0, map[]);
    SafeExactly(name);
    SafeStaysBelow(directory, name, 0);
    forall n: nat | n <= |name| ensures directory <= Walk(directory, name, n).0 {
      SafeStaysBelow(directory, name, n);
    }
    forall other | other in ParseFrom(tar, 0, 0, map[]).value && Resolve(directory, other) == Resolve(directory, name)
      ensures other == name
    {
      SafeLeadsApart(directory, other, name);
    }
  }

  // And no header is written for another name.
  lemma WrittenStaysBelow(path: Path, size: nat)
    ensures TarHeader(path, size) == Err(UnsafePath) <==> !StaysBelow(path)
  {
    hide SafePath, StaysBelow, HeaderFront, HeaderBack, Sum, OctalField;
    SafeExactly(path);
  }
}
