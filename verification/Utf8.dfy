// Well-formed UTF-8 is what RFC 3629 encodes, and byte strings of one length are ordered as the
// numbers they spell.
module Utf8 {
  import opened Bytes
  import opened Modular

  // ----- scalar values

  predicate IsScalar(u: nat) {
    u < 0xd800 || 0xe000 <= u < 0x11_0000
  }

  function Continuation(bits: nat): byte {
    0x80 + bits % 64
  }

  // Section 3 of RFC 3629.
  function EncodeScalar(u: nat): (s: seq<byte>)
    requires IsScalar(u)
    ensures s != []
  {
    if u < 0x80 then [u]
    else if u < 0x800 then [0xc0 + u / 64, Continuation(u)]
    else if u < 0x1_0000 then [0xe0 + u / 4096, Continuation(u / 64), Continuation(u)]
    else [0xf0 + u / 0x4_0000, Continuation(u / 4096), Continuation(u / 64), Continuation(u)]
  }

  function EncodeScalars(us: seq<nat>): seq<byte>
    requires forall i | 0 <= i < |us| :: IsScalar(us[i])
  {
    if us == [] then [] else EncodeScalar(us[0]) + EncodeScalars(us[1..])
  }

  // The bits so far and those of a continuation byte.
  function Appended(high: nat, b: byte): (u: nat)
    requires IsTail(b)
    ensures u / 64 == high && u % 64 == b - 0x80
  {
    high * 64 + (b - 0x80)
  }

  // The scalar value that a step of the scan passes over.
  function DecodeScalar(s: seq<byte>): nat
    requires s != [] && Utf8Step(s) != 0
  {
    match Utf8Step(s)
    case 1 => s[0]
    case 2 => Appended(s[0] - 0xc0, s[1])
    case 3 => Appended(Appended(s[0] - 0xe0, s[1]), s[2])
    case _ => Appended(Appended(Appended(s[0] - 0xf0, s[1]), s[2]), s[3])
  }

  lemma StepDecodes(s: seq<byte>)
    requires s != [] && Utf8Step(s) != 0
    ensures IsScalar(DecodeScalar(s)) && EncodeScalar(DecodeScalar(s)) == s[..Utf8Step(s)]
  {
    hide Appended;
    if Utf8Step(s) == 3 {
      ThreeDecode(s);
    } else if Utf8Step(s) == 4 {
      FourDecode(s);
    }
  }

  lemma ThreeDecode(s: seq<byte>)
    requires s != [] && Utf8Step(s) == 3
    ensures IsScalar(DecodeScalar(s)) && EncodeScalar(DecodeScalar(s)) == s[..3]
  {
    hide Appended;
    var u := DecodeScalar(s);
    assert u / 4096 == u / 64 / 64;
  }

  lemma FourDecode(s: seq<byte>)
    requires s != [] && Utf8Step(s) == 4
    ensures IsScalar(DecodeScalar(s)) && EncodeScalar(DecodeScalar(s)) == s[..4]
  {
    hide Appended;
    var u := DecodeScalar(s);
    assert u / 4096 == u / 64 / 64 && u / 0x4_0000 == u / 64 / 64 / 64;
  }

  lemma EncodedSteps(u: nat, rest: seq<byte>)
    requires IsScalar(u)
    ensures Utf8Step(EncodeScalar(u) + rest) == |EncodeScalar(u)|
  {
    if 0x800 <= u < 0x1_0000 {
      ThreeBytes(u);
    } else if 0x1_0000 <= u {
      FourBytes(u);
    }
  }

  // The second byte keeps out overlong forms, surrogates and what is beyond the last scalar.
  lemma ThreeBytes(u: nat)
    requires IsScalar(u) && 0x800 <= u < 0x1_0000
    ensures u / 4096 < 16
    ensures u / 4096 == 0 ==> u / 64 % 64 >= 32
    ensures u / 4096 == 13 ==> u / 64 % 64 < 32
  {
    assert u / 64 == 64 * (u / 4096) + u / 64 % 64;
  }

  lemma FourBytes(u: nat)
    requires IsScalar(u) && 0x1_0000 <= u
    ensures u / 0x4_0000 <= 4
    ensures u / 0x4_0000 == 0 ==> u / 4096 % 64 >= 16
    ensures u / 0x4_0000 == 4 ==> u / 4096 % 64 < 16
  {
    assert u / 4096 == 64 * (u / 0x4_0000) + u / 4096 % 64;
  }

  lemma {:induction false} EncodedIsUtf8(us: seq<nat>)
    requires forall i | 0 <= i < |us| :: IsScalar(us[i])
    ensures IsUtf8(EncodeScalars(us))
  {
    hide EncodeScalar, Utf8Step;
    if us != [] {
      EncodedIsUtf8(us[1..]);
      EncodedSteps(us[0], EncodeScalars(us[1..]));
      var s := EncodeScalars(us);
      assert s[|EncodeScalar(us[0])|..] == EncodeScalars(us[1..]);
    }
  }

  lemma {:induction false} Utf8IsEncoded(s: seq<byte>) returns (us: seq<nat>)
    requires IsUtf8(s)
    ensures forall i | 0 <= i < |us| :: IsScalar(us[i])
    ensures EncodeScalars(us) == s
    decreases |s|
  {
    hide EncodeScalar, Utf8Step, DecodeScalar, IsScalar;
    us := [];
    if s != [] {
      var step := Utf8Step(s);
      var rest := Utf8IsEncoded(s[step..]);
      StepDecodes(s);
      us := [DecodeScalar(s)] + rest;
      assert us[1..] == rest;
      assert s == s[..step] + s[step..];
    }
  }

  ghost predicate IsText(s: seq<byte>) {
    exists us: seq<nat> :: (forall i | 0 <= i < |us| :: IsScalar(us[i])) && EncodeScalars(us) == s
  }

  // The scan accepts exactly the encodings of scalar values.
  lemma Utf8Exactly(s: seq<byte>)
    ensures IsUtf8(s) <==> IsText(s)
  {
    hide EncodeScalar, Utf8Step, IsScalar;
    if IsUtf8(s) {
      var us := Utf8IsEncoded(s);
    }
    if IsText(s) {
      var us: seq<nat> :| (forall i | 0 <= i < |us| :: IsScalar(us[i])) && EncodeScalars(us) == s;
      EncodedIsUtf8(us);
    }
  }

  // ----- order

  lemma {:induction false} FirstDigit(s: seq<byte>)
    requires s != []
    ensures FromBigEndian(s) == s[0] * Pow256(|s| - 1) + FromBigEndian(s[1..])
  {
    if |s| == 1 {
      assert s[..0] == [] && s[1..] == [];
    } else {
      var front := s[..|s| - 1];
      FirstDigit(front);
      assert s[1..][..|s| - 2] == front[1..];
      assert Pow256(|s| - 1) == 256 * Pow256(|s| - 2);
      Scale(s[0], Pow256(|s| - 2));
    }
  }

  lemma Scale(d: nat, p: nat)
    ensures 256 * (d * p) == d * (256 * p)
  {
  }

  lemma FirstDecides(a: nat, b: nat, p: nat, x: nat, y: nat)
    requires x < p && y < p
    ensures a < b ==> a * p + x < b * p + y
  {
    if a < b {
      MulStep(p, a, b);
    }
  }

  // `Ord` on byte arrays of one length is the order of the numbers they spell.
  lemma {:induction false} LessIsNumeric(a: seq<byte>, b: seq<byte>)
    requires |a| == |b|
    ensures Less(a, b) <==> FromBigEndian(a) < FromBigEndian(b)
  {
    hide FromBigEndian, Pow256;
    if a != [] {
      FirstDigit(a);
      FirstDigit(b);
      LessIsNumeric(a[1..], b[1..]);
      FromBigEndianBound(a[1..]);
      FromBigEndianBound(b[1..]);
      FirstDecides(a[0], b[0], Pow256(|a| - 1), FromBigEndian(a[1..]), FromBigEndian(b[1..]));
      FirstDecides(b[0], a[0], Pow256(|a| - 1), FromBigEndian(b[1..]), FromBigEndian(a[1..]));
    } else {
      assert a == b;
    }
  }
}
