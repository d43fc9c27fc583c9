// Which key is derived: the chain of HMACs of each chain and network, byte by byte.
module KeyDerivation {
  import opened Wrappers
  import opened Bytes
  import opened Bits
  import opened Modular
  import opened WalletTypes
  import opened WalletCrypto
  import opened StoreFormat
  import opened StoreFormatTheory
  import opened StoreOps
  import opened KeyTheory

  // The child of a node for the four bytes of a child index.
  ghost predicate IsChild(c: Crypto, parent: Bytes64, index: seq<byte>, child: Bytes64) {
    child == c.hmacSha512(parent[32..64], [0] + parent[..32] + index)
  }

  function CoinBytes(chain: Chain, network: Network): seq<byte> {
    if network.Testnet? then [0x80, 0, 0, 1]
    else if chain.Symbol? then [0x80, 0, 0x10, 0xf7]
    else [0x80, 0, 0, 0x2b]
  }

  function HardenedBytes(n: nat): seq<byte>
    requires n < 0x8000_0000
  {
    [0x80 + n / 0x100_0000, n / 0x1_0000 % 256, n / 256 % 256, n % 256]
  }

  // The five hardened steps 44', coin', account', 0' and 0' from the root of the seed.
  ghost predicate IsPath(
    c: Crypto, entropy: Bytes32, chain: Chain, network: Network, accountIndex: nat, nodes: seq<Bytes64>)
    requires accountIndex < 0x8000_0000
  {
    && |nodes| == 6
    && nodes[0] == c.hmacSha512(Ascii(if chain.Symbol? then "ed25519 seed" else "ed25519-keccak seed"), c.seed(entropy))
    && IsChild(c, nodes[0], [0x80, 0, 0, 0x2c], nodes[1])
    && IsChild(c, nodes[1], CoinBytes(chain, network), nodes[2])
    && IsChild(c, nodes[2], HardenedBytes(accountIndex), nodes[3])
    && IsChild(c, nodes[3], [0x80, 0, 0, 0], nodes[4])
    && IsChild(c, nodes[4], [0x80, 0, 0, 0], nodes[5])
  }

  // The first half of the last node: as it is for Symbol, from its last byte to its first for NEM.
  ghost predicate IsKeyOf(chain: Chain, node: Bytes64, key: seq<byte>) {
    && |key| == 32
    && (chain.Symbol? ==> forall i | 0 <= i < 32 :: key[i] == node[i])
    && (chain.Nem? ==> forall i | 0 <= i < 32 :: key[i] == node[31 - i])
  }

  lemma RootTexts()
    ensures SYMBOL_ROOT == Ascii("ed25519 seed") && NEM_ROOT == Ascii("ed25519-keccak seed")
  {
  }

  lemma TopBit()
    ensures Pow2(31) == 0x8000_0000
  {
    assert Pow2(8) == 256 && Pow2(16) == 0x1_0000 && Pow2(24) == 0x100_0000;
  }

  lemma Hardened(n: nat)
    requires n < 0x8000_0000
    ensures ToBigEndian(Or(n, 0x8000_0000), 4) == HardenedBytes(n)
  {
    hide Or, Pow2;
    TopBit();
    OrDisjoint(n, 31);
    BigEndian4(n + 0x8000_0000);
    HighBit(n);
  }

  lemma HighBit(n: nat)
    requires n < 0x8000_0000
    ensures (n + 0x8000_0000) / 0x100_0000 == 0x80 + n / 0x100_0000
    ensures (n + 0x8000_0000) / 0x1_0000 % 256 == n / 0x1_0000 % 256
    ensures (n + 0x8000_0000) / 256 % 256 == n / 256 % 256
    ensures (n + 0x8000_0000) % 256 == n % 256
  {
    ShiftedByte(n, 0x100_0000, 0x80);
    ShiftedByte(n, 0x1_0000, 0x8000);
    ShiftedByte(n, 256, 0x80_0000);
    ModOfMultiple(n / 0x1_0000, 256, 0x80);
    ModOfMultiple(n / 256, 256, 0x8000);
    ModOfMultiple(n, 256, 0x80_0000);
  }

  lemma ShiftedByte(n: nat, d: nat, q: nat)
    requires d > 0
    ensures (n + d * q) / d == n / d + q
  {
    Factor(d, n / d, q);
    ModUnique(n + d * q, d, n / d + q, n % d);
  }

  lemma BigEndian4(n: nat)
    requires n < 0x1_0000_0000
    ensures ToBigEndian(n, 4) == [n / 0x100_0000, n / 0x1_0000 % 256, n / 256 % 256, n % 256]
  {
    assert ToBigEndian(n / 0x100_0000, 1) == [n / 0x100_0000 % 256];
    assert ToBigEndian(n / 0x1_0000, 2) == ToBigEndian(n / 0x100_0000, 1) + [n / 0x1_0000 % 256];
    assert ToBigEndian(n / 256, 3) == ToBigEndian(n / 0x1_0000, 2) + [n / 256 % 256];
  }

  lemma StepIsChild(c: Crypto, root: Bytes64, path: seq<nat>, identifier: nat)
    requires identifier < 0x8000_0000
    ensures IsChild(c, NodeAt(c, root, path), HardenedBytes(identifier), NodeAt(c, root, path + [identifier]))
  {
    hide Or;
    Hardened(identifier);
    assert (path + [identifier])[..|path|] == path;
    var node := NodeAt(c, root, path);
    assert node[32..] == node[32..64];
  }

  lemma PathNodes(c: Crypto, entropy: Bytes32, chain: Chain, network: Network, accountIndex: u64)
    returns (nodes: seq<Bytes64>)
    requires accountIndex <= MAX_ACCOUNT_INDEX
    ensures IsPath(c, entropy, chain, network, accountIndex, nodes)
    ensures nodes[5] ==
      NodeAt(c, c.hmacSha512(RootKey(chain), c.seed(entropy)), DerivationPath(chain, network, accountIndex))
  {
    hide NodeAt, IsChild, Ascii;
    RootTexts();
    var root := c.hmacSha512(RootKey(chain), c.seed(entropy));
    var coin := CoinType(chain, network);
    StepIsChild(c, root, [], 44);
    StepIsChild(c, root, [44], coin);
    StepIsChild(c, root, [44, coin], accountIndex);
    StepIsChild(c, root, [44, coin, accountIndex], 0);
    StepIsChild(c, root, [44, coin, accountIndex, 0], 0);
    RootNode(c, root);
    PathInSteps(coin, accountIndex);
    nodes := [root, NodeAt(c, root, [44]), NodeAt(c, root, [44, coin]), NodeAt(c, root, [44, coin, accountIndex]),
      NodeAt(c, root, [44, coin, accountIndex, 0]), NodeAt(c, root, [44, coin, accountIndex, 0, 0])];
  }

  lemma RootNode(c: Crypto, root: Bytes64)
    ensures NodeAt(c, root, []) == root
  {
  }

  lemma PathInSteps(coin: nat, account: nat)
    ensures [] + [44] == [44] && [44] + [coin] == [44, coin] && [44, coin] + [account] == [44, coin, account]
    ensures [44, coin, account] + [0] == [44, coin, account, 0]
    ensures [44, coin, account, 0] + [0] == [44, coin, account, 0, 0]
  {
  }

  lemma OnePath(c: Crypto, entropy: Bytes32, chain: Chain, network: Network, accountIndex: nat, a: seq<Bytes64>,
    b: seq<Bytes64>)
    requires accountIndex < 0x8000_0000
    requires IsPath(c, entropy, chain, network, accountIndex, a) && IsPath(c, entropy, chain, network, accountIndex, b)
    ensures a == b
  {
  }

  // Derivation gives the key of the last node, and fails exactly on an index of 2^31 or more and
  // on a node whose key would be zero.
  lemma DerivationExactly(c: Crypto, entropy: Bytes32, chain: Chain, network: Network, accountIndex: u64)
    returns (nodes: seq<Bytes64>)
    ensures DerivePrivateKey(c, entropy, chain, network, accountIndex) == Err(InvalidAccountIndex) <==>
      accountIndex >= 0x8000_0000
    ensures accountIndex < 0x8000_0000 ==>
      && IsPath(c, entropy, chain, network, accountIndex, nodes)
      && var r := DerivePrivateKey(c, entropy, chain, network, accountIndex);
      && (r == Err(InvalidPrivateKey) <==> forall i | 0 <= i < 32 :: nodes[5][i] == 0)
      && (r.Ok? <==> exists i | 0 <= i < 32 :: nodes[5][i] != 0)
      && (r.Ok? ==> IsKeyOf(chain, nodes[5], r.value))
  {
    hide NodeAt, IsPath, Reverse;
    nodes := [];
    if accountIndex < 0x8000_0000 {
      nodes := PathNodes(c, entropy, chain, network, accountIndex);
      SixNodes(c, entropy, chain, network, accountIndex, nodes);
      KeyOfNode(chain, nodes[5]);
    }
  }

  lemma SixNodes(c: Crypto, entropy: Bytes32, chain: Chain, network: Network, accountIndex: nat, nodes: seq<Bytes64>)
    requires accountIndex < 0x8000_0000 && IsPath(c, entropy, chain, network, accountIndex, nodes)
    ensures |nodes| == 6
  {
  }

  lemma KeyOfNode(chain: Chain, node: Bytes64)
    ensures var key := if chain.Nem? then Reverse(node[..32]) else node[..32];
      IsKeyOf(chain, node, key) && (ValidPrivateKey(key) <==> exists i | 0 <= i < 32 :: node[i] != 0)
  {
    var half := node[..32];
    var key := if chain.Nem? then Reverse(half) else half;
    forall i | 0 <= i < 32 ensures Reverse(half)[i] == node[31 - i] {
      ReverseAt(half, i);
    }
    if i: nat :| i < 32 && node[i] != 0 {
      assert key[if chain.Nem? then 31 - i else i] != 0;
    }
    if i: nat :| i < 32 && key[i] != 0 {
      assert node[if chain.Nem? then 31 - i else i] != 0;
    }
  }

  // What a derived key is when it is exported again: the key of the last node of the path from
  // the entropy of the profile, on its network.
  lemma DerivedIsExported(
    c: Crypto, store: seq<byte>, profileId: Bytes16, password: seq<byte>, chain: Chain, accountIndex: u64,
    random: Random, m: Mutation<SoftwareKeyInfo>)
    returns (s: Store, i: nat, payload: Payload, nodes: seq<Bytes64>, key: Bytes32)
    requires DeriveSoftwareKey(c, store, profileId, password, chain, accountIndex, random) == Ok(m)
    requires DecodeStore(m.store).Ok?
    ensures DecodeStore(store) == Ok(s) && i < |s.profiles| && s.profiles[i].profileId == profileId
    ensures OpenProfile(c, s.registryKey, s.profiles[i], password) == Ok(payload)
    ensures accountIndex < 0x8000_0000
    ensures m.value.chain == chain && m.value.origin == Derived(accountIndex)
    ensures IsPath(c, payload.entropy, chain, s.profiles[i].network, accountIndex, nodes)
    ensures ExportPrivateKey(c, m.store, profileId, m.value.keyId, password) == Ok(key)
    ensures IsKeyOf(chain, nodes[5], key)
  {
    hide DecodeStore, AddKey, OpenProfile, StoreWellFormed, ValidPrivateKey, EncodeStore, ExportPrivateKey, ProfileIndex,
      DerivePrivateKey, IsPath, IsKeyOf;
    s := DecodeStore(store).value;
    i := ProfileIndex(s.profiles, profileId).value;
    payload := OpenProfile(c, s.registryKey, s.profiles[i], password).value;
    StoreCodec(store, s);
    key := DerivePrivateKey(c, payload.entropy, chain, s.profiles[i].network, accountIndex).value;
    nodes := DerivationExactly(c, payload.entropy, chain, s.profiles[i].network, accountIndex);
    SixNodes(c, payload.entropy, chain, s.profiles[i].network, accountIndex, nodes);
    DerivedKeyValid(c, payload.entropy, chain, s.profiles[i].network, accountIndex);
    AddedKeyInfo(c, s, i, payload, chain, key, Derived(accountIndex), password, random, m);
    AddedKeyIsExported(c, s, i, payload, chain, key, Derived(accountIndex), password, random, m);
  }

  lemma DerivedKeyValid(c: Crypto, entropy: Bytes32, chain: Chain, network: Network, accountIndex: u64)
    ensures var r := DerivePrivateKey(c, entropy, chain, network, accountIndex); r.Ok? ==> ValidPrivateKey(r.value)
  {
    hide ValidPrivateKey, NodeAt;
  }

  lemma AddedKeyInfo(
    c: Crypto, s: Store, i: nat, payload: Payload, chain: Chain, privateKey: Bytes32, origin: Origin,
    password: seq<byte>, random: Random, m: Mutation<SoftwareKeyInfo>)
    requires i < |s.profiles| && AddKey(c, s, i, payload, chain, privateKey, origin, password, random) == Ok(m)
    ensures m.value.chain == chain && m.value.origin == origin
  {
    hide Reencrypt, EncodeStore, HasKey, FreshId;
  }
}
