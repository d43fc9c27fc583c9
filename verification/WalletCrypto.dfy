// The cryptographic primitives the wallet calls, as uninterpreted functions.
module WalletCrypto {
  import opened Wrappers
  import opened Bytes
  import opened Bits
  import opened WalletTypes

  datatype Sealed = Sealed(ciphertext: seq<byte>, tag: Bytes16)

  datatype Primitives = Primitives(
    argon2id: (seq<byte>, Bytes16) -> Bytes32,
    seal: (Bytes32, Bytes12, seq<byte>, seq<byte>) -> Sealed,
    unseal: (Bytes32, Bytes12, Bytes16, seq<byte>, seq<byte>) -> Option<seq<byte>>,
    hmacSha256: (Bytes32, seq<byte>) -> Bytes32,
    sha256: seq<byte> -> Bytes32,
    parseMnemonic: seq<byte> -> Option<Bytes32>,
    mnemonic: Bytes32 -> seq<byte>,
    seed: Bytes32 -> Bytes64,
    hmacSha512: (seq<byte>, seq<byte>) -> Bytes64)

  // AES-256-GCM works in place, and decryption undoes encryption under the same key, nonce
  // and associated data. Nothing else is known of any primitive.
  ghost predicate Correct(p: Primitives) {
    && (forall key, nonce, aad, plaintext ::
          var s := p.seal(key, nonce, aad, plaintext);
          |s.ciphertext| == |plaintext| && p.unseal(key, nonce, s.tag, aad, s.ciphertext) == Some(plaintext))
    && (forall key, nonce, tag, aad, ciphertext ::
          var o := p.unseal(key, nonce, tag, aad, ciphertext);
          o.Some? ==> |o.value| == |ciphertext|)
  }

  const ZERO16: Bytes16 := [0, 0, 0, 0, 0, 0, 0, 0, 0, 0, 0, 0, 0, 0, 0, 0]
  const ZERO32: Bytes32 := ZERO16 + ZERO16
  const ZERO64: Bytes64 := ZERO32 + ZERO32

  // The assumptions are consistent: a cipher that does nothing meets them.
  const NULL_PRIMITIVES := Primitives(
    (password, salt) => ZERO32,
    (key, nonce, aad, plaintext) => Sealed(plaintext, ZERO16),
    (key, nonce, tag, aad, ciphertext) => Some(ciphertext),
    (key, message) => ZERO32,
    message => ZERO32,
    phrase => None,
    entropy => [],
    entropy => ZERO64,
    (key, message) => ZERO64)

  type Crypto = p: Primitives | Correct(p) ghost witness NULL_PRIMITIVES

  // The order of the tests is the source's: not empty, then UTF-8.
  predicate ValidPassword(password: seq<byte>) {
    password != [] && IsUtf8(password)
  }

  function DeriveEncryptionKey(c: Crypto, password: seq<byte>, salt: Bytes16): Result<Bytes32, ErrorCode> {
    if ValidPassword(password) then Ok(c.argon2id(password, salt)) else Err(InvalidArgument)
  }

  // "symbol-nem-wallet-core/profile-duplicate/v1"
  const DUPLICATE_DOMAIN: seq<byte> := [
    0x73, 0x79, 0x6d, 0x62, 0x6f, 0x6c, 0x2d, 0x6e, 0x65, 0x6d, 0x2d, 0x77, 0x61, 0x6c, 0x6c, 0x65, 0x74, 0x2d,
    0x63, 0x6f, 0x72, 0x65, 0x2f, 0x70, 0x72, 0x6f, 0x66, 0x69, 0x6c, 0x65, 0x2d, 0x64, 0x75, 0x70, 0x6c, 0x69,
    0x63, 0x61, 0x74, 0x65, 0x2f, 0x76, 0x31]

  function DuplicateTag(c: Crypto, registryKey: Bytes32, network: Network, entropy: Bytes32): Bytes32 {
    c.hmacSha256(registryKey, DUPLICATE_DOMAIN + [network.Wire()] + entropy)
  }

  predicate ValidPrivateKey(key: seq<byte>) {
    |key| == 32 && exists i | 0 <= i < |key| :: key[i] != 0
  }

  // ----- hierarchical derivation

  // "ed25519 seed" and "ed25519-keccak seed"
  const SYMBOL_ROOT: seq<byte> := [0x65, 0x64, 0x32, 0x35, 0x35, 0x31, 0x39, 0x20, 0x73, 0x65, 0x65, 0x64]
  const NEM_ROOT: seq<byte> := [
    0x65, 0x64, 0x32, 0x35, 0x35, 0x31, 0x39, 0x2d, 0x6b, 0x65, 0x63, 0x63, 0x61, 0x6b, 0x20, 0x73, 0x65, 0x65, 0x64]

  function RootKey(chain: Chain): seq<byte> {
    if chain.Symbol? then SYMBOL_ROOT else NEM_ROOT
  }

  function CoinType(chain: Chain, network: Network): nat {
    match (chain, network)
    case (Symbol, Mainnet) => 4_343
    case (Nem, Mainnet) => 43
    case (_, Testnet) => 1
  }

  function DerivationPath(chain: Chain, network: Network, accountIndex: u64): seq<nat> {
    [44, CoinType(chain, network), accountIndex, 0, 0]
  }

  function ChildData(node: Bytes64, identifier: nat): (data: seq<byte>)
    ensures |data| == 37
  {
    [0] + node[..32] + ToBigEndian(Or(identifier, 0x8000_0000), 4)
  }

  // The node at the end of a path: private key, then chain code.
  function NodeAt(c: Crypto, root: Bytes64, path: seq<nat>): Bytes64 {
    if path == [] then root
    else
      var parent := NodeAt(c, root, path[..|path| - 1]);
      c.hmacSha512(parent[32..], ChildData(parent, path[|path| - 1]))
  }

  function DerivePrivateKey(c: Crypto, entropy: Bytes32, chain: Chain, network: Network, accountIndex: u64)
    : Result<Bytes32, ErrorCode>
  {
    if accountIndex > MAX_ACCOUNT_INDEX then Err(InvalidAccountIndex) else
    var root := c.hmacSha512(RootKey(chain), c.seed(entropy));
    var node := NodeAt(c, root, DerivationPath(chain, network, accountIndex))[..32];
    var key: Bytes32 := if chain.Nem? then Reverse(node) else node;
    if ValidPrivateKey(key) then Ok(key) else Err(InvalidPrivateKey)
  }

  function Reverse(s: seq<byte>): (r: seq<byte>)
    ensures |r| == |s|
  {
    if s == [] then [] else Reverse(s[1..]) + [s[0]]
  }

  // Index by index.
  lemma {:induction false} ReverseAt(s: seq<byte>, i: nat)
    requires i < |s|
    ensures Reverse(s)[i] == s[|s| - 1 - i]
  {
    if i < |s| - 1 {
      ReverseAt(s[1..], i);
    }
  }

  lemma ReversedIs(s: seq<byte>, r: seq<byte>)
    requires |r| == |s| && forall i | 0 <= i < |s| :: r[i] == s[|s| - 1 - i]
    ensures r == Reverse(s)
  {
    forall i | 0 <= i < |s| ensures r[i] == Reverse(s)[i] {
      ReverseAt(s, i);
    }
  }
}
