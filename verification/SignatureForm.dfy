// The signature and the key pair of each chain written out in full, after sections 5.1.5 and
// 5.1.6 of RFC 8032.
module SignatureForm {
  import opened Wrappers
  import opened Bytes
  import opened Bits
  import opened Modular
  import opened Scalar
  import opened WalletTypes
  import opened WalletCrypto
  import opened Signing

  // The number that 32 bytes give with their three low bits cleared, their top bit cleared and
  // the bit below it set.
  ghost function ClampedValue(h: seq<byte>): int {
    Pow2(254) + Le(h) % Pow2(254) - Le(h) % 8
  }

  ghost function SecretOf(hash: seq<byte> -> Bytes64, seed: Bytes32): int {
    ClampedValue(hash(seed)[..32]) % L
  }

  // The number of a hash taken modulo l.
  ghost function HashValue(hash: seq<byte> -> Bytes64, data: seq<byte>): nat {
    Le(hash(data)) % L
  }

  ghost predicate IsKeyPair(c: Curve, hash: seq<byte> -> Bytes64, seed: Bytes32, publicKey: Bytes32) {
    SecretOf(hash, seed) >= 0 && publicKey == c.compress(c.mulBase(SecretOf(hash, seed)))
  }

  // R is the multiple of the base point by the hash of the second half of the seed's digest and
  // the message; S is the nonce plus the secret times the hash of R, public key and message.
  ghost predicate IsSignature(c: Curve, hash: seq<byte> -> Bytes64, seed: Bytes32, message: seq<byte>, signature: Bytes64) {
    && SecretOf(hash, seed) >= 0
    && var nonce := HashValue(hash, hash(seed)[32..64] + message);
    && signature[..32] == c.compress(c.mulBase(nonce))
    && var challenge := HashValue(hash, signature[..32] + c.compress(c.mulBase(SecretOf(hash, seed))) + message);
    && Le(signature[32..]) == (nonce + challenge * SecretOf(hash, seed)) % L
  }

  // ----- clamping

  lemma SplitEnds(t: seq<byte>)
    requires |t| == 32
    ensures Le(t) == t[0] + 256 * Le(t[1..31]) + t[31] * Pow256(31)
  {
    hide Le, Pow256;
    assert t == t[..31] + [t[31]];
    LePush(t[..31], t[31]);
    assert t[..31] == [t[0]] + t[1..31];
    LeFirst(t[0], t[1..31]);
  }

  lemma LowEndBound(t: seq<byte>)
    requires |t| == 32
    ensures t[0] + 256 * Le(t[1..31]) < Pow256(31)
  {
    hide Le, Pow256;
    assert t[..31] == [t[0]] + t[1..31];
    LeFirst(t[0], t[1..31]);
    LeBound(t[..31]);
  }

  lemma TopBits()
    ensures Pow2(254) == 64 * Pow256(31)
  {
    hide Pow2, Pow256;
    Pow2Bytes(31);
    Pow2Sum(6, 248);
    SmallPowers();
  }

  lemma TopDigit(front: nat, top: byte, p: nat)
    requires front < p
    ensures (front + top * p) % (64 * p) == front + (top % 64) * p
  {
    var q, t := top / 64, top % 64;
    MulStep(p, t, 64);
    TopRegroup(p, q, t);
    ModUnique(front + top * p, 64 * p, q, front + t * p);
  }

  lemma TopRegroup(p: nat, q: nat, t: nat)
    ensures (64 * q + t) * p == (64 * p) * q + t * p
  {
    Factor(p, 64 * q, t);
    assert p * (64 * q) == (64 * p) * q;
  }

  lemma LowDigit(t: seq<byte>)
    requires |t| == 32
    ensures Le(t) % 8 == t[0] % 8
  {
    hide Le;
    assert t == [t[0]] + t[1..];
    LeFirst(t[0], t[1..]);
    LowMod(t[0], Le(t[1..]));
  }

  lemma LowMod(b: nat, x: nat)
    ensures (b + 256 * x) % 8 == b % 8
  {
    ModOfMultiple(b, 8, 32 * x);
  }

  // Masking the bytes computes the clamped value.
  lemma ClampExactly(s: Bytes32)
    ensures Le(Clamp(s)) == ClampedValue(s)
  {
    hide Le, Pow2, Pow256, And, Or;
    var t := Clamp(s);
    TopByte(s[0]);
    TopByte(s[31]);
    SplitEnds(s);
    SplitEnds(t);
    assert t[1..31] == s[1..31];
    LowDigit(s);
    LowEndBound(s);
    EndsClamped(s[0], Le(s[1..31]), s[31]);
  }

  lemma EndsClamped(low: byte, middle: nat, top: byte)
    requires low + 256 * middle < Pow256(31)
    ensures low - low % 8 + 256 * middle + (64 + top % 64) * Pow256(31) ==
      Pow2(254) + (low + 256 * middle + top * Pow256(31)) % Pow2(254) - low % 8
  {
    hide Pow2, Pow256;
    var p := Pow256(31);
    TopBits();
    TopDigit(low + 256 * middle, top, p);
    Factor(p, 64, top % 64);
  }

  lemma SecretExactly(c: Curve, chain: Chain, privateKey: Bytes32)
    ensures chain.Symbol? ==> SecretScalar(c, chain, privateKey) == SecretOf(c.sha512, privateKey)
    ensures chain.Nem? ==> SecretScalar(c, chain, privateKey) == SecretOf(c.keccak512, Reverse(privateKey))
  {
    hide Le, Clamp, ClampedValue;
    ClampExactly(Hash512(c, chain, Seed(chain, privateKey))[..32]);
  }

  // ----- both chains

  lemma FormOf(c: Curve, chain: Chain, hash: seq<byte> -> Bytes64, seed: Bytes32, privateKey: Bytes32, message: seq<byte>)
    requires forall data :: hash(data) == Hash512(c, chain, data)
    requires seed == Seed(chain, privateKey) && SecretScalar(c, chain, privateKey) == SecretOf(hash, seed)
    ensures IsKeyPair(c, hash, seed, PublicKey(c, chain, privateKey))
    ensures IsSignature(c, hash, seed, message, Signature(c, chain, privateKey, message))
  {
    hide Le, ToLe, Hash512, SecretScalar, SecretOf, Lawful, Pow256, Seed;
    var a := SecretScalar(c, chain, privateKey);
    assert Prefix(c, chain, privateKey) == hash(seed)[32..64];
    var nonce := HashValue(hash, hash(seed)[32..64] + message);
    var encodedR: seq<byte>, publicKey: seq<byte> := c.compress(c.mulBase(nonce)), c.compress(c.mulBase(a));
    var challenge := HashValue(hash, encodedR + publicKey + message);
    var response := (nonce + challenge * a % L) % L;
    ResponseSum(nonce, challenge * a);
    Pow256At32();
    LeReadsWritten(response, 32);
    var signature := Signature(c, chain, privateKey, message);
    assert signature == encodedR + ToLe(response, 32);
    assert signature[..32] == encodedR && signature[32..] == ToLe(response, 32);
  }

  lemma ResponseSum(nonce: nat, product: nat)
    ensures (nonce + product % L) % L == (nonce + product) % L
  {
    ModOfSum(product, nonce, L);
  }

  // Symbol hashes with SHA-512 and takes the private key as it is.
  lemma SymbolForm(c: Curve, privateKey: Bytes32, message: seq<byte>)
    ensures IsKeyPair(c, c.sha512, privateKey, PublicKey(c, Symbol, privateKey))
    ensures IsSignature(c, c.sha512, privateKey, message, Signature(c, Symbol, privateKey, message))
  {
    hide Signature, PublicKey, IsSignature, IsKeyPair, SecretScalar, SecretOf;
    SecretExactly(c, Symbol, privateKey);
    FormOf(c, Symbol, c.sha512, privateKey, privateKey, message);
  }

  // NEM hashes with Keccak-512 and takes it from its last byte to its first.
  lemma NemForm(c: Curve, privateKey: Bytes32, seed: Bytes32, message: seq<byte>)
    requires forall i | 0 <= i < 32 :: seed[i] == privateKey[31 - i]
    ensures IsKeyPair(c, c.keccak512, seed, PublicKey(c, Nem, privateKey))
    ensures IsSignature(c, c.keccak512, seed, message, Signature(c, Nem, privateKey, message))
  {
    hide Signature, PublicKey, IsSignature, IsKeyPair, SecretScalar, SecretOf, Reverse;
    ReversedIs(privateKey, seed);
    SecretExactly(c, Nem, privateKey);
    FormOf(c, Nem, c.keccak512, seed, privateKey, message);
  }

  // There is one signature and one public key of that form.
  lemma OneSignature(c: Curve, hash: seq<byte> -> Bytes64, seed: Bytes32, message: seq<byte>, a: Bytes64, b: Bytes64)
    requires IsSignature(c, hash, seed, message, a) && IsSignature(c, hash, seed, message, b)
    ensures a == b
  {
    hide Le, SecretOf, HashValue, ToLe;
    LeWritesRead(a[32..]);
    LeWritesRead(b[32..]);
    assert a == a[..32] + a[32..] && b == b[..32] + b[32..];
  }

  // ----- nonces

  lemma SameMultiple(c: Curve, a: nat, b: nat)
    requires a < L && b < L
    ensures c.compress(c.mulBase(a)) == c.compress(c.mulBase(b)) <==> a == b
  {
    Decompresses(c, a);
    Decompresses(c, b);
  }

  // Two signatures under one key share R exactly when the hashes of the second half of its
  // digest and the message agree modulo l.
  lemma SharedNonce(c: Curve, hash: seq<byte> -> Bytes64, seed: Bytes32, m: seq<byte>, n: seq<byte>, a: Bytes64, b: Bytes64)
    requires IsSignature(c, hash, seed, m, a) && IsSignature(c, hash, seed, n, b)
    ensures a[..32] == b[..32] <==>
      Le(hash(hash(seed)[32..64] + m)) % L == Le(hash(hash(seed)[32..64] + n)) % L
  {
    hide Le, SecretOf, Lawful;
    SameMultiple(c, HashValue(hash, hash(seed)[32..64] + m), HashValue(hash, hash(seed)[32..64] + n));
  }

  lemma SymbolNonces(c: Curve, privateKey: Bytes32, m: seq<byte>, n: seq<byte>)
    ensures Signature(c, Symbol, privateKey, m)[..32] == Signature(c, Symbol, privateKey, n)[..32] <==>
      Le(c.sha512(c.sha512(privateKey)[32..64] + m)) % L == Le(c.sha512(c.sha512(privateKey)[32..64] + n)) % L
  {
    hide Signature, IsSignature, IsKeyPair, PublicKey, Le;
    SymbolForm(c, privateKey, m);
    SymbolForm(c, privateKey, n);
    SharedNonce(c, c.sha512, privateKey, m, n, Signature(c, Symbol, privateKey, m), Signature(c, Symbol, privateKey, n));
  }

  lemma NemNonces(c: Curve, privateKey: Bytes32, seed: Bytes32, m: seq<byte>, n: seq<byte>)
    requires forall i | 0 <= i < 32 :: seed[i] == privateKey[31 - i]
    ensures Signature(c, Nem, privateKey, m)[..32] == Signature(c, Nem, privateKey, n)[..32] <==>
      Le(c.keccak512(c.keccak512(seed)[32..64] + m)) % L == Le(c.keccak512(c.keccak512(seed)[32..64] + n)) % L
  {
    hide Signature, IsSignature, IsKeyPair, PublicKey, Le;
    NemForm(c, privateKey, seed, m);
    NemForm(c, privateKey, seed, n);
    SharedNonce(c, c.keccak512, seed, m, n, Signature(c, Nem, privateKey, m), Signature(c, Nem, privateKey, n));
  }
}
