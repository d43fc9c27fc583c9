// Machine integers, byte strings and their big-endian reading.
module Bytes {

  type byte = b: int | 0 <= b < 256

  type u64 = n: int | 0 <= n < 0x1_0000_0000_0000_0000

  type Bytes4 = s: seq<byte> | |s| == 4 witness [0, 0, 0, 0]
  type Bytes12 = s: seq<byte> | |s| == 12 witness seq(12, _ => 0)
  type Bytes16 = s: seq<byte> | |s| == 16 witness seq(16, _ => 0)
  type Bytes32 = s: seq<byte> | |s| == 32 witness seq(32, _ => 0)
  type Bytes64 = s: seq<byte> | |s| == 64 witness seq(64, _ => 0)

  // A Rust `String` or `&str` as the bytes it holds.
  type Text = s: seq<byte> | IsUtf8(s) witness []

  // `len() as u64` for a `usize` length.
  function AsU64(n: nat): u64 {
    if n < 0x1_0000_0000_0000_0000 then n else n % 0x1_0000_0000_0000_0000
  }

  function Pow256(k: nat): (p: nat)
    ensures p > 0
  {
    if k == 0 then 1 else 256 * Pow256(k - 1)
  }

  // `to_be_bytes` for an integer of k bytes.
  function ToBigEndian(n: nat, k: nat): (s: seq<byte>)
    ensures |s| == k
  {
    if k == 0 then [] else ToBigEndian(n / 256, k - 1) + [n % 256]
  }

  // `from_be_bytes`.
  function FromBigEndian(s: seq<byte>): nat {
    if s == [] then 0 else 256 * FromBigEndian(s[..|s| - 1]) + s[|s| - 1]
  }

  lemma {:induction false} FromBigEndianBound(s: seq<byte>)
    ensures FromBigEndian(s) < Pow256(|s|)
  {
    if s != [] {
      FromBigEndianBound(s[..|s| - 1]);
    }
  }

  lemma {:induction false} BigEndianReadsWritten(n: nat, k: nat)
    requires n < Pow256(k)
    ensures FromBigEndian(ToBigEndian(n, k)) == n
  {
    if k > 0 {
      BigEndianReadsWritten(n / 256, k - 1);
      var s := ToBigEndian(n, k);
      assert s[..|s| - 1] == ToBigEndian(n / 256, k - 1);
    }
  }

  lemma {:induction false} BigEndianWritesRead(s: seq<byte>)
    ensures ToBigEndian(FromBigEndian(s), |s|) == s
  {
    if s != [] {
      BigEndianWritesRead(s[..|s| - 1]);
      assert s == s[..|s| - 1] + [s[|s| - 1]];
    }
  }

  // A byte string literal.
  function Ascii(text: string): (s: seq<byte>)
    ensures |s| == |text|
  {
    seq(|text|, i requires 0 <= i < |text| => if text[i] < 128 as char then text[i] as int else 0)
  }

  // Well-formed UTF-8 byte sequences, as `core::str::from_utf8` accepts them
  // (table 3-7 of the Unicode Standard).
  predicate IsUtf8(s: seq<byte>) {
    s == [] ||
    var step := Utf8Step(s);
    step != 0 && IsUtf8(s[step..])
  }

  // The length of the well-formed sequence that starts `s`, or 0.
  function Utf8Step(s: seq<byte>): (n: nat)
    requires s != []
    ensures n <= |s|
  {
    if s[0] < 0x80 then 1
    else if 0xc2 <= s[0] <= 0xdf && |s| >= 2 && IsTail(s[1]) then 2
    else if s[0] == 0xe0 && |s| >= 3 && 0xa0 <= s[1] <= 0xbf && IsTail(s[2]) then 3
    else if s[0] == 0xed && |s| >= 3 && 0x80 <= s[1] <= 0x9f && IsTail(s[2]) then 3
    else if 0xe1 <= s[0] <= 0xef && s[0] != 0xed && |s| >= 3 && IsTail(s[1]) && IsTail(s[2]) then 3
    else if s[0] == 0xf0 && |s| >= 4 && 0x90 <= s[1] <= 0xbf && IsTail(s[2]) && IsTail(s[3]) then 4
    else if 0xf1 <= s[0] <= 0xf3 && |s| >= 4 && IsTail(s[1]) && IsTail(s[2]) && IsTail(s[3]) then 4
    else if s[0] == 0xf4 && |s| >= 4 && 0x80 <= s[1] <= 0x8f && IsTail(s[2]) && IsTail(s[3]) then 4
    else 0
  }

  predicate IsTail(b: byte) {
    0x80 <= b <= 0xbf
  }

  // Rust's `Ord` on byte arrays of one length.
  predicate Less(a: seq<byte>, b: seq<byte>) {
    b != [] && (a == [] || a[0] < b[0] || (a[0] == b[0] && Less(a[1..], b[1..])))
  }

  lemma {:induction false} LessTotal(a: seq<byte>, b: seq<byte>)
    ensures Less(a, b) || a == b || Less(b, a)
  {
    if a != [] && b != [] && a[0] == b[0] {
      LessTotal(a[1..], b[1..]);
      assert a == [a[0]] + a[1..] && b == [b[0]] + b[1..];
    }
  }

  lemma {:induction false} LessAsymmetric(a: seq<byte>, b: seq<byte>)
    requires Less(a, b)
    ensures !Less(b, a) && a != b
  {
    if a != [] && a[0] == b[0] {
      LessAsymmetric(a[1..], b[1..]);
    }
  }

  lemma {:induction false} LessTransitive(a: seq<byte>, b: seq<byte>, c: seq<byte>)
    requires Less(a, b) && Less(b, c)
    ensures Less(a, c)
  {
    if a != [] && a[0] == b[0] == c[0] {
      LessTransitive(a[1..], b[1..], c[1..]);
    }
  }
}
