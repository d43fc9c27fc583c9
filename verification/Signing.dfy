// Key material and signatures over an abstract group, after RFC 8032, with the hash of the chain.
module Signing {
  import opened Wrappers
  import opened Bytes
  import opened Bits
  import opened Modular
  import opened Scalar
  import opened WalletTypes
  import opened WalletCrypto

  // Points are only named; nothing is known of them but what `Lawful` says.
  type Point = nat

  datatype CurveOperations = CurveOperations(
    mulBase: nat -> Point,
    add: (Point, Point) -> Point,
    compress: Point -> Bytes32,
    decompress: Bytes32 -> Option<Point>,
    sha512: seq<byte> -> Bytes64,
    keccak512: seq<byte> -> Bytes64)

  // Multiples of the base point form a group of order l, and are recovered from their encoding.
  ghost predicate Lawful(p: CurveOperations) {
    && (forall a: nat, b: nat | a < L && b < L && p.mulBase(a) == p.mulBase(b) :: a == b)
    && (forall a: nat, b: nat | a < L && b < L :: p.add(p.mulBase(a), p.mulBase(b)) == p.mulBase((a + b) % L))
    && (forall a: nat | a < L :: p.decompress(p.compress(p.mulBase(a))) == Some(p.mulBase(a)))
  }

  // The assumptions are consistent: the integers modulo l meet them.
  function AsBytes(n: nat): (s: Bytes32)
    ensures n < L ==> FromBigEndian(s) == n
  {
    Pow256At32();
    if n < L then BigEndianReadsWritten(n, 32); ToBigEndian(n, 32) else ToBigEndian(n, 32)
  }

  const RESIDUES := CurveOperations(
    a => a, (a, b) => (a + b) % L, a => AsBytes(a), s => Some(FromBigEndian(s)), data => ZERO64, data => ZERO64)

  type Curve = p: CurveOperations | Lawful(p) ghost witness RESIDUES

  function Hash512(c: Curve, chain: Chain, data: seq<byte>): Bytes64 {
    match chain
    case Symbol => c.sha512(data)
    case Nem => c.keccak512(data)
  }

  // ----- scalars as bytes

  // `to_bytes` of a canonical scalar.
  function ToLe(n: nat, k: nat): (s: seq<byte>)
    ensures |s| == k
  {
    if k == 0 then [] else [n % 256] + ToLe(n / 256, k - 1)
  }

  lemma LeFirst(b: byte, s: seq<byte>)
    ensures Le([b] + s) == b + 256 * Le(s)
  {
    LeConcat([b], s);
    LePush([], b);
    assert [] + [b] == [b];
    assert Pow256(1) == 256;
  }

  lemma {:induction false} LeReadsWritten(n: nat, k: nat)
    requires n < Pow256(k)
    ensures Le(ToLe(n, k)) == n
  {
    if k > 0 {
      LeReadsWritten(n / 256, k - 1);
      LeFirst(n % 256, ToLe(n / 256, k - 1));
    }
  }

  lemma {:induction false} LeWritesRead(s: seq<byte>)
    ensures ToLe(Le(s), |s|) == s
  {
    hide Le;
    if s != [] {
      var rest := s[1..];
      LeWritesRead(rest);
      assert s == [s[0]] + rest;
      LeFirst(s[0], rest);
      assert Le(s) % 256 == s[0] && Le(s) / 256 == Le(rest);
    }
  }

  // ----- private scalar

  function Seed(chain: Chain, privateKey: Bytes32): Bytes32 {
    if chain.Nem? then Reverse(privateKey) else privateKey
  }

  function Clamp(s: Bytes32): Bytes32 {
    TopByte(s[31]);
    s[0 := And(s[0], 248)][31 := Or(And(s[31], 63), 64)]
  }

  lemma TopByte(b: byte)
    ensures And(b, 248) == b - b % 8
    ensures And(b, 63) == b % 64
    ensures Or(And(b, 63), 64) == 64 + b % 64
  {
    hide And, Or;
    AndKeepsLow(b, 6);
    assert Pow2(6) == 64;
    AndHigh(b, 31);
    AndWithOnes(b / 8, 5);
    assert Pow2(5) == 32;
    OrDisjoint(b % 64, 6);
  }

  // A mask whose low three bits are clear.
  lemma AndHigh(a: nat, high: nat)
    ensures And(a, 8 * high) == 8 * And(a / 8, high)
  {
    assert And(a, 8 * high) == 2 * And(a / 2, 4 * high);
    assert And(a / 2, 4 * high) == 2 * And(a / 4, 2 * high);
    assert And(a / 4, 2 * high) == 2 * And(a / 8, high);
  }

  lemma ClampedLow(t: seq<byte>)
    requires |t| == 32 && t[0] % 8 == 0
    ensures Le(t) % 8 == 0
  {
    hide Le;
    assert t == [t[0]] + t[1..];
    LeFirst(t[0], t[1..]);
    ModOfMultiple(t[0], 8, 32 * Le(t[1..]));
  }

  lemma ClampedHigh(t: seq<byte>)
    requires |t| == 32 && 64 <= t[31] < 128
    ensures Pow2(254) <= Le(t) < Pow2(255)
  {
    hide Le, Pow2, Pow256;
    LeNext(t, 31);
    assert t[..32] == t;
    LeBound(t[..31]);
    Pow2Bytes(31);
    Pow2Sum(6, 248);
    Pow2Sum(7, 248);
    SmallPowers();
    MulStep(Pow256(31), t[31], 128);
    MulStep(Pow256(31), 63, t[31]);
    assert 64 * Pow256(31) <= t[31] * Pow256(31) by {
      MulStep(Pow256(31), 63, t[31]);
    }
  }

  // Section 5.1.5 of RFC 8032: a multiple of the cofactor with its highest bit in place.
  lemma ClampedScalar(s: Bytes32)
    ensures Le(Clamp(s)) % 8 == 0
    ensures Pow2(254) <= Le(Clamp(s)) < Pow2(255)
  {
    hide And, Or, Le, Pow2, Pow256;
    TopByte(s[0]);
    TopByte(s[31]);
    ClampedLow(Clamp(s));
    ClampedHigh(Clamp(s));
  }

  function SecretScalar(c: Curve, chain: Chain, privateKey: Bytes32): (a: nat)
    ensures a < L
  {
    Le(Clamp(Hash512(c, chain, Seed(chain, privateKey))[..32])) % L
  }

  method PrivateScalar(c: Curve, chain: Chain, privateKey: Bytes32) returns (scalar: nat)
    ensures scalar == SecretScalar(c, chain, privateKey)
  {
    hide Le;
    var digest := Hash512(c, chain, Seed(chain, privateKey));
    var scalarBytes := new byte[32](i requires 0 <= i < 32 => digest[i]);
    assert scalarBytes[..] == digest[..32];
    TopByte(digest[31]);
    scalarBytes[0] := And(scalarBytes[0], 248);
    ghost var top := scalarBytes[31];
    scalarBytes[31] := And(scalarBytes[31], 63);
    scalarBytes[31] := Or(scalarBytes[31], 64);
    assert scalarBytes[..] == Clamp(digest[..32]);
    scalar := Le(scalarBytes[..]) % L;
  }

  // ----- key material

  function PublicKey(c: Curve, chain: Chain, privateKey: Bytes32): Bytes32 {
    c.compress(c.mulBase(SecretScalar(c, chain, privateKey)))
  }

  function Prefix(c: Curve, chain: Chain, privateKey: Bytes32): Bytes32 {
    Hash512(c, chain, Seed(chain, privateKey))[32..]
  }

  method KeyMaterial(c: Curve, chain: Chain, privateKey: Bytes32) returns (publicKey: Bytes32, prefix: Bytes32)
    ensures publicKey == PublicKey(c, chain, privateKey) && prefix == Prefix(c, chain, privateKey)
  {
    hide SecretScalar;
    var scalar := PrivateScalar(c, chain, privateKey);
    prefix := Hash512(c, chain, Seed(chain, privateKey))[32..];
    publicKey := c.compress(c.mulBase(scalar));
  }

  // ----- signatures

  function Reduced(hash: Bytes64): (n: nat)
    ensures n < L
  {
    Le(hash) % L
  }

  method ToArray(scalar: nat) returns (a: array<byte>)
    requires scalar < L
    ensures fresh(a) && a.Length == 32 && Le(a[..]) == scalar
  {
    hide Le, ToLe, Pow256;
    Pow256At32();
    LeReadsWritten(scalar, 32);
    var bytes := ToLe(scalar, 32);
    a := new byte[32](i requires 0 <= i < 32 => bytes[i]);
    assert a[..] == bytes;
  }

  // R || S: deterministic nonce, challenge over R, public key and message, response modulo l.
  function Signature(c: Curve, chain: Chain, privateKey: Bytes32, message: seq<byte>): Bytes64 {
    var nonce := Reduced(Hash512(c, chain, Prefix(c, chain, privateKey) + message));
    var encodedR := c.compress(c.mulBase(nonce));
    var challenge := Reduced(Hash512(c, chain, encodedR + PublicKey(c, chain, privateKey) + message));
    encodedR + ToLe((nonce + challenge * SecretScalar(c, chain, privateKey) % L) % L, 32)
  }

  // `sign`: R and S computed with the byte arithmetic of `Scalar`.
  method Sign(c: Curve, chain: Chain, privateKey: Bytes32, message: seq<byte>) returns (signature: Bytes64)
    ensures signature == Signature(c, chain, privateKey, message)
  {
    hide Le, ToLe, PublicKey, Prefix, SecretScalar, Reduced, Hash512, AddOnce;
    var publicKey: seq<byte>, prefix: seq<byte> := KeyMaterial(c, chain, privateKey);
    var nonce := Reduced(Hash512(c, chain, prefix + message));
    var encodedR: seq<byte> := c.compress(c.mulBase(nonce));
    var challenge := Reduced(Hash512(c, chain, encodedR + publicKey + message));
    var privateScalar := PrivateScalar(c, chain, privateKey);
    var nonceBytes := ToArray(nonce);
    var challengeBytes := ToArray(challenge);
    var privateScalarBytes := ToArray(privateScalar);
    var privateTerm := ScalarMulModOrder(challengeBytes, privateScalarBytes);
    ModBelow(challenge * privateScalar);
    var response := ScalarAddModOrder(nonceBytes, privateTerm);
    LeWritesRead(response[..]);
    signature := encodedR + response[..];
  }

  lemma ModBelow(x: nat)
    ensures x % L < L
  {
  }

  // k times a point.
  function Times(c: Curve, k: nat, p: Point): Point {
    if k == 0 then c.mulBase(0) else c.add(Times(c, k - 1, p), p)
  }

  lemma NextMultiple(c: Curve, k: nat, a: nat)
    requires a < L
    ensures c.add(c.mulBase(k * a % L), c.mulBase(a)) == c.mulBase((k + 1) * a % L)
  {
    var x := k * a;
    ModOfSum(x, a, L);
    Factor(a, k, 1);
    AddsMultiples(c, x % L, a);
  }

  lemma AddsMultiples(c: Curve, a: nat, b: nat)
    requires a < L && b < L
    ensures c.add(c.mulBase(a), c.mulBase(b)) == c.mulBase((a + b) % L)
  {
  }

  lemma Decompresses(c: Curve, a: nat)
    requires a < L
    ensures c.decompress(c.compress(c.mulBase(a))) == Some(c.mulBase(a))
  {
  }

  lemma {:induction false} TimesMultiple(c: Curve, k: nat, a: nat)
    requires a < L
    ensures Times(c, k, c.mulBase(a)) == c.mulBase(k * a % L)
  {
    if k > 0 {
      TimesMultiple(c, k - 1, a);
      NextMultiple(c, k - 1, a);
    }
  }

  // Section 5.1.7 of RFC 8032, with the hash of the chain and the unreduced challenge.
  predicate Verifies(c: Curve, chain: Chain, publicKey: Bytes32, message: seq<byte>, signature: Bytes64) {
    var encodedR, s := signature[..32], Le(signature[32..]);
    var (r, a) := (c.decompress(encodedR), c.decompress(publicKey));
    && s < L
    && r.Some? && a.Some?
    && c.mulBase(s) == c.add(r.value, Times(c, Le(Hash512(c, chain, encodedR + publicKey + message)), a.value))
  }

  // The equation S = r + k a modulo l, lifted to the group.
  lemma ResponseSolves(c: Curve, r: nat, k: nat, a: nat)
    requires r < L && a < L
    ensures c.mulBase((r + (k % L) * a % L) % L) == c.add(c.mulBase(r), Times(c, k, c.mulBase(a)))
  {
    hide Times, Lawful;
    ModOfProduct(k, a, L);
    TimesMultiple(c, k, a);
    AddsMultiples(c, r, k * a % L);
  }

  // Every signature verifies, for both chains.
  lemma SignatureVerifies(c: Curve, chain: Chain, privateKey: Bytes32, message: seq<byte>)
    ensures Verifies(c, chain, PublicKey(c, chain, privateKey), message, Signature(c, chain, privateKey, message))
  {
    hide Le, ToLe, Prefix, Hash512, SecretScalar, Times, Lawful, Pow256;
    var a := SecretScalar(c, chain, privateKey);
    var nonce := Reduced(Hash512(c, chain, Prefix(c, chain, privateKey) + message));
    var encodedR: seq<byte>, publicKey: seq<byte> := c.compress(c.mulBase(nonce)), PublicKey(c, chain, privateKey);
    var k := Le(Hash512(c, chain, encodedR + publicKey + message));
    var signature := Signature(c, chain, privateKey, message);
    ResponseSolves(c, nonce, k, a);
    Pow256At32();
    var response := (nonce + (k % L) * a % L) % L;
    LeReadsWritten(response, 32);
    assert signature[..32] == encodedR && signature[32..] == ToLe(response, 32);
    Decompresses(c, a);
    Decompresses(c, nonce);
  }
}
