// In every Store reached from an empty one, when each operation succeeds: exactly when its
// arguments are good, its draws are there, and a count is below its limit.
module StoreLiveness {
  import opened Wrappers
  import opened Bytes
  import opened Sorting
  import opened Cbor
  import opened WalletTypes
  import opened WalletCrypto
  import opened StoreFormat
  import opened StoreFormatTheory
  import opened PayloadTheory
  import opened StoreOps
  import opened IndexTheory
  import opened SealTheory
  import opened WireSizes
  import opened MutationTheory
  import opened ProfileTheory
  import opened KeyTheory
  import opened Pending
  import opened PendingTheory
  import opened StoreRuns
  import opened StoreOutcomes
  import opened DuplicateProfiles
  import opened KeyDerivation

  // ----- what is known of a reached Store

  lemma ReachedFits(c: Crypto, t: Store, secrets: map<Bytes16, Secret>)
    requires StoreInvariant(c, t, secrets)
    ensures SizeFits(t) && EncodeStore(t).Ok? && EncodeStore(t).value == Wire(StoreToValue(t))
  {
    hide StoreWellFormed, ProfileKnownBy, EncodeStore, SmallPlain, TagsDistinct, StoreToValue, Wire;
    forall i | 0 <= i < |t.profiles| ensures SmallPlain(t.profiles[i]) {
      KnownSmall(c, t, secrets, i);
    }
    SortedStore(t);
    StoreSize(t);
    StoreEncoding(t);
  }

  lemma KnownSmall(c: Crypto, s: Store, secrets: map<Bytes16, Secret>, i: nat)
    requires StoreInvariant(c, s, secrets) && i < |s.profiles|
    ensures SmallPlain(s.profiles[i])
  {
    hide StoreWellFormed, OpenProfile, SmallPlain, PlainPayload, KeysDistinct, TagsDistinct;
    KnownProfile(c, s, secrets, i);
  }

  // A profile is listed exactly when its secret is known, and opens to it.
  lemma KnownOpens(c: Crypto, w: World, profileId: Bytes16) returns (s: Store, i: nat)
    requires Invariant(c, w)
    ensures DecodeStore(w.store) == Ok(s) && StoreInvariant(c, s, w.secrets)
    ensures profileId !in w.secrets ==> ProfileIndex(s.profiles, profileId) == Err(ProfileNotFound)
    ensures profileId in w.secrets ==>
      && i < |s.profiles| && s.profiles[i].profileId == profileId
      && ProfileIndex(s.profiles, profileId) == Ok(i)
      && OpenProfile(c, s.registryKey, s.profiles[i], w.secrets[profileId].password) == Ok(w.secrets[profileId].payload)
      && PlainPayload(w.secrets[profileId].payload) && KeysDistinct(w.secrets[profileId].payload.keys)
  {
    hide DecodeStore, StoreWellFormed, OpenProfile, PlainPayload, KeysDistinct, TagsDistinct, SmallPlain;
    s := DecodeStore(w.store).value;
    i := 0;
    ProfileFound(s.profiles, profileId);
    if profileId in w.secrets {
      assert HasProfile(s.profiles, profileId);
      i := ProfileIndex(s.profiles, profileId).value;
      KnownProfile(c, s, w.secrets, i);
    } else if ProfileIndex(s.profiles, profileId).Ok? {
      KnownProfile(c, s, w.secrets, ProfileIndex(s.profiles, profileId).value);
    }
  }

  // ----- keys

  // A key is added exactly when it is new, an id and a nonce are drawn, and there are fewer than
  // 256 keys.
  lemma AddKeyLive(
    c: Crypto, w: World, s: Store, i: nat, profileId: Bytes16, chain: Chain, privateKey: Bytes32, origin: Origin,
    random: Random)
    requires Invariant(c, w) && profileId in w.secrets && ValidPrivateKey(privateKey)
    requires DecodeStore(w.store) == Ok(s) && ProfileIndex(s.profiles, profileId) == Ok(i)
    ensures var payload := w.secrets[profileId].payload;
      var r := AddKey(c, s, i, payload, chain, privateKey, origin, w.secrets[profileId].password, random);
      && (r.Ok? <==> !HasKey(payload.keys, chain, privateKey) && KeyDrawn(payload, random) && |payload.keys| < 256)
      && (r == Err(DuplicateSoftwareKey) <==> HasKey(payload.keys, chain, privateKey))
      && (r == Err(RandomSourceFailure) <==> !HasKey(payload.keys, chain, privateKey) && !KeyDrawn(payload, random))
      && (r.Err? ==> r.error in {DuplicateSoftwareKey, RandomSourceFailure, SerializationFailure})
      && (r.Ok? ==> FirstFree(random.ids, KeyIds(payload.keys), r.value.value.keyId))
  {
    hide DecodeStore, StoreInvariant, OpenProfile, PlainPayload, KeysDistinct, AddKey, ValidPrivateKey, HasKey, KeyDrawn,
      FirstFree, EncodeStore, OnlyKeysChanged, StoreWellFormed, Ordered, PayloadFits, ProfileIndex;
    var secret := w.secrets[profileId];
    var payload := secret.payload;
    var known, k := KnownOpens(c, w, profileId);
    InvariantStore(c, s, w.secrets);
    AddKeyRefusals(c, s, i, payload, chain, privateKey, origin, secret.password, random);
    if !HasKey(payload.keys, chain, privateKey) && KeyDrawn(payload, random) {
      var keyId, t := AddKeySucceeds(c, s, i, payload, chain, privateKey, origin, secret.password, random);
      if |payload.keys| < 256 {
        FreeKeyId(payload, random, keyId);
        var key := NewKey(keyId, chain, privateKey, origin);
        AddedKeyPlain(payload, key);
        AppendedWellFormed(c, s, i, secret.password, payload, key);
        AppendedFits(payload, key);
        KeysChangedIds(s, t, i, Ordered(payload.(keys := payload.keys + [key])).keys);
        KeysChangedInvariant(c, s, w.secrets, i, t, secret.password, Ordered(payload.(keys := payload.keys + [key])));
        ReachedFits(c, t, w.secrets[s.profiles[i].profileId :=
          Secret(secret.password, Ordered(payload.(keys := payload.keys + [key])))]);
      }
    }
  }

  lemma InvariantStore(c: Crypto, s: Store, secrets: map<Bytes16, Secret>)
    requires StoreInvariant(c, s, secrets)
    ensures StoreWellFormed(s) && s.unknown == []
  {
    hide StoreWellFormed, ProfileKnownBy, TagsDistinct;
  }

  lemma FreeKeyId(payload: Payload, random: Random, keyId: Bytes16)
    requires FirstFree(random.ids, KeyIds(payload.keys), keyId)
    ensures keyId !in KeyIds(payload.keys)
  {
  }

  lemma AppendedFits(payload: Payload, key: KeyRecord)
    requires var updated := Ordered(payload.(keys := payload.keys + [key]));
      PlainPayload(updated) && PayloadWellFormed(updated)
    ensures PayloadFits(payload.(keys := payload.keys + [key]))
  {
    hide PlainPayload, PayloadWellFormed, EncodePayload, Ordered;
    PlainPayloadFits(Ordered(payload.(keys := payload.keys + [key])));
    OrderedEncoding(payload.(keys := payload.keys + [key]));
  }

  lemma ImportLive(
    c: Crypto, w: World, profileId: Bytes16, chain: Chain, privateKey: seq<byte>, random: Random)
    requires Invariant(c, w) && profileId in w.secrets
    ensures var (secret, key) := (w.secrets[profileId], privateKey);
      var r := ImportSoftwareKey(c, w.store, profileId, secret.password, chain, key, random);
      var good := |key| == 32 && NonZeroKey(key);
      && (r.Ok? <==> (
          good && !HasKey(secret.payload.keys, chain, key) && KeyDrawn(secret.payload, random)
          && |secret.payload.keys| < 256))
      && (!good ==> r == Err(InvalidPrivateKey))
      && (r == Err(DuplicateSoftwareKey) <==> good && HasKey(secret.payload.keys, chain, key))
  {
    hide DecodeStore, StoreInvariant, OpenProfile, PlainPayload, KeysDistinct, AddKey, ValidPrivateKey, HasKey, KeyDrawn,
      NonZeroKey, ProfileIndex;
    var s, i := KnownOpens(c, w, profileId);
    GoodKey(privateKey);
    if ValidPrivateKey(privateKey) {
      AddKeyLive(c, w, s, i, profileId, chain, privateKey, Imported, random);
    }
  }

  lemma GoodKey(key: seq<byte>)
    ensures ValidPrivateKey(key) <==> |key| == 32 && NonZeroKey(key)
  {
    hide NonZeroKey, ValidPrivateKey;
    if |key| == 32 {
      ValidIsNonZero(key);
    } else if ValidPrivateKey(key) {
      ValidKeyHas32(key);
    }
  }

  lemma GenerateLive(c: Crypto, w: World, profileId: Bytes16, chain: Chain, random: Random) returns (key: Bytes32)
    requires Invariant(c, w) && profileId in w.secrets
    ensures AnyNonZero(random.privateKeys) ==> FirstNonZero(random.privateKeys, key)
    ensures var secret := w.secrets[profileId];
      var r := GenerateSoftwareKey(c, w.store, profileId, secret.password, chain, random);
      && (r.Ok? <==> (
          AnyNonZero(random.privateKeys) && !HasKey(secret.payload.keys, chain, key)
          && KeyDrawn(secret.payload, random) && |secret.payload.keys| < 256))
      && (r == Err(DuplicateSoftwareKey) <==>
          AnyNonZero(random.privateKeys) && HasKey(secret.payload.keys, chain, key))
  {
    hide DecodeStore, StoreInvariant, OpenProfile, PlainPayload, KeysDistinct, AddKey, ValidPrivateKey, HasKey, KeyDrawn,
      AnyNonZero, FirstNonZero, GeneratePrivateKey, ProfileIndex;
    var s, i := KnownOpens(c, w, profileId);
    key := ZERO32;
    GeneratedExactly(random.privateKeys);
    if GeneratePrivateKey(random.privateKeys).Ok? {
      key := GeneratePrivateKey(random.privateKeys).value;
      AddKeyLive(c, w, s, i, profileId, chain, key, Generated, random);
    }
  }

  // The key generated is exported again: the first candidate that is not zero.
  lemma GeneratedIsExported(
    c: Crypto, store: seq<byte>, profileId: Bytes16, password: seq<byte>, chain: Chain, random: Random,
    m: Mutation<SoftwareKeyInfo>) returns (key: Bytes32)
    requires GenerateSoftwareKey(c, store, profileId, password, chain, random) == Ok(m)
    requires DecodeStore(m.store).Ok?
    ensures FirstNonZero(random.privateKeys, key)
    ensures m.value.chain == chain && m.value.origin == Generated
    ensures ExportPrivateKey(c, m.store, profileId, m.value.keyId, password) == Ok(key)
  {
    hide DecodeStore, AddKey, OpenProfile, StoreWellFormed, ValidPrivateKey, EncodeStore, ExportPrivateKey, ProfileIndex,
      GeneratePrivateKey, FirstNonZero, AnyNonZero;
    var s := DecodeStore(store).value;
    var i := ProfileIndex(s.profiles, profileId).value;
    var payload := OpenProfile(c, s.registryKey, s.profiles[i], password).value;
    StoreCodec(store, s);
    GeneratedExactly(random.privateKeys);
    key := GeneratePrivateKey(random.privateKeys).value;
    AddedKeyInfo(c, s, i, payload, chain, key, Generated, password, random, m);
    AddedKeyIsExported(c, s, i, payload, chain, key, Generated, password, random, m);
  }

  lemma DeriveLive(
    c: Crypto, w: World, profileId: Bytes16, chain: Chain, accountIndex: u64, random: Random)
    returns (nodes: seq<Bytes64>, key: Bytes32)
    requires Invariant(c, w) && profileId in w.secrets
    ensures accountIndex < 0x8000_0000 ==>
      && IsPath(c, w.secrets[profileId].payload.entropy, chain, ProfileNetwork(w, profileId), accountIndex, nodes)
      && IsKeyOf(chain, nodes[5], key)
    ensures var secret := w.secrets[profileId];
      var r := DeriveSoftwareKey(c, w.store, profileId, secret.password, chain, accountIndex, random);
      && (r.Ok? <==> (
          accountIndex < 0x8000_0000 && NonZeroKey(key) && !HasKey(secret.payload.keys, chain, key)
          && KeyDrawn(secret.payload, random) && |secret.payload.keys| < 256))
      && (r == Err(InvalidAccountIndex) <==> accountIndex >= 0x8000_0000)
      && (r == Err(DuplicateSoftwareKey) <==>
          accountIndex < 0x8000_0000 && NonZeroKey(key) && HasKey(secret.payload.keys, chain, key))
  {
    hide DecodeStore, StoreInvariant, OpenProfile, PlainPayload, KeysDistinct, AddKey, ValidPrivateKey, HasKey, KeyDrawn,
      NonZeroKey, DerivePrivateKey, IsPath, IsKeyOf, ProfileIndex;
    var s, i := KnownOpens(c, w, profileId);
    var entropy, network := w.secrets[profileId].payload.entropy, s.profiles[i].network;
    key := ZERO32;
    nodes := DerivationExactly(c, entropy, chain, network, accountIndex);
    if accountIndex < 0x8000_0000 {
      SixNodes(c, entropy, chain, network, accountIndex, nodes);
      key := KeyAt(c, entropy, chain, network, accountIndex, nodes);
      ValidIsNonZero(key);
      if NonZeroKey(key) {
        AddKeyLive(c, w, s, i, profileId, chain, key, Derived(accountIndex), random);
      }
    }
  }

  lemma KeyAt(c: Crypto, entropy: Bytes32, chain: Chain, network: Network, accountIndex: u64, nodes: seq<Bytes64>)
    returns (key: Bytes32)
    requires accountIndex < 0x8000_0000 && IsPath(c, entropy, chain, network, accountIndex, nodes)
    ensures IsKeyOf(chain, nodes[5], key)
    ensures DerivePrivateKey(c, entropy, chain, network, accountIndex) ==
      if ValidPrivateKey(key) then Ok(key) else Err(InvalidPrivateKey)
  {
    hide NodeAt, Reverse, ValidPrivateKey, IsPath;
    var again := PathNodes(c, entropy, chain, network, accountIndex);
    OnePath(c, entropy, chain, network, accountIndex, nodes, again);
    SixNodes(c, entropy, chain, network, accountIndex, nodes);
    KeyOfNode(chain, nodes[5]);
    key := if chain.Nem? then Reverse(nodes[5][..32]) else nodes[5][..32];
  }

  // ----- passwords and deletion

  lemma ChangePasswordLive(c: Crypto, w: World, profileId: Bytes16, password: seq<byte>, random: Random)
    requires Invariant(c, w) && profileId in w.secrets
    ensures ChangeProfilePassword(c, w.store, profileId, w.secrets[profileId].password, password, random).Ok? <==>
      ValidPassword(password) && random.salt.Some? && random.nonce.Some?
  {
    hide DecodeStore, StoreInvariant, OpenProfile, PlainPayload, KeysDistinct, ValidPassword, ReencryptProfile, Ordered,
      PayloadWellFormed, ProfileIndex, StoreWellFormed, EncodeStore, Belongs, EncodePayload, OnlyKeysChanged;
    var secret := w.secrets[profileId];
    var s, i := KnownOpens(c, w, profileId);
    InvariantStore(c, s, w.secrets);
    OneProfile(s, i);
    OpenedBelongs(c, s.registryKey, s.profiles[i], secret.password, secret.payload);
    if ValidPassword(password) {
      ReencryptOutcome(c, s.registryKey, s.profiles[i], secret.payload, password, true, random);
      if random.salt.Some? && random.nonce.Some? {
        var t := Reencrypt(c, s, i, secret.payload, password, true, random).value;
        Reencrypted(c, s, i, secret.payload, password, true, random, t);
        KeysChangedIds(s, t, i, secret.payload.keys);
        KeysChangedInvariant(c, s, w.secrets, i, t, password, secret.payload);
        ReachedFits(c, t, w.secrets[s.profiles[i].profileId := Secret(password, secret.payload)]);
      }
    }
  }

  lemma DeleteKeyLive(c: Crypto, w: World, profileId: Bytes16, keyId: Bytes16, random: Random)
    requires Invariant(c, w) && profileId in w.secrets
    ensures var secret := w.secrets[profileId];
      var r := DeleteSoftwareKey(c, w.store, profileId, keyId, secret.password, random);
      && (r.Ok? <==> ListsKey(secret.payload.keys, keyId) && random.nonce.Some?)
      && (r == Err(SoftwareKeyNotFound) <==> !ListsKey(secret.payload.keys, keyId))
  {
    hide DecodeStore, StoreInvariant, OpenProfile, PlainPayload, KeysDistinct, ValidPassword, ReencryptProfile, Ordered,
      PayloadWellFormed, ProfileIndex, StoreWellFormed, EncodeStore, Belongs, EncodePayload, OnlyKeysChanged, WithoutKey,
      ListsKey;
    var secret := w.secrets[profileId];
    var s, i := KnownOpens(c, w, profileId);
    NoneRemoved(secret.payload.keys, keyId);
    InvariantStore(c, s, w.secrets);
    OneProfile(s, i);
    OpenedBelongs(c, s.registryKey, s.profiles[i], secret.password, secret.payload);
    OpenedPassword(c, s.registryKey, s.profiles[i], secret.password);
    var kept := secret.payload.(keys := WithoutKey(secret.payload.keys, keyId));
    KeptBelongs(c, s.registryKey, s.profiles[i], secret.payload, keyId);
    ReencryptOutcome(c, s.registryKey, s.profiles[i], kept, secret.password, false, random);
    if random.nonce.Some? {
      KeptPlain(c, s.registryKey, s.profiles[i], secret.password, secret.payload, keyId);
      PlainPayloadFits(kept);
      var t := Reencrypt(c, s, i, kept, secret.password, false, random).value;
      Reencrypted(c, s, i, kept, secret.password, false, random, t);
      KeysChangedIds(s, t, i, kept.keys);
      KeysChangedInvariant(c, s, w.secrets, i, t, secret.password, kept);
      ReachedFits(c, t, w.secrets[s.profiles[i].profileId := Secret(secret.password, kept)]);
    }
  }

  lemma DeleteProfileLive(c: Crypto, w: World, profileId: Bytes16, password: seq<byte>) returns (s: Store)
    requires Invariant(c, w)
    ensures DecodeStore(w.store) == Ok(s)
    ensures DeleteProfile(c, w.store, profileId, password).Ok? <==> Authenticate(c, s, profileId, password).Ok?
    ensures Authenticate(c, s, profileId, password).Err? ==>
      DeleteProfile(c, w.store, profileId, password) == Err(Authenticate(c, s, profileId, password).error)
    ensures profileId !in w.secrets ==> DeleteProfile(c, w.store, profileId, password) == Err(ProfileNotFound)
    ensures profileId in w.secrets ==> DeleteProfile(c, w.store, profileId, w.secrets[profileId].password).Ok?
  {
    hide DecodeStore, StoreInvariant, OpenProfile, PlainPayload, KeysDistinct, ProfileIndex, StoreWellFormed, EncodeStore;
    var i;
    s, i := KnownOpens(c, w, profileId);
    if profileId in w.secrets {
      var t := s.(profiles := s.profiles[..i] + s.profiles[i + 1..]);
      RemainsWellFormed(c, s, w.secrets, i);
      DeletedInvariant(c, s, w.secrets, i, t);
      ReachedFits(c, t, w.secrets - {s.profiles[i].profileId});
    }
  }

  lemma RemainsWellFormed(c: Crypto, s: Store, secrets: map<Bytes16, Secret>, i: nat)
    requires StoreInvariant(c, s, secrets) && i < |s.profiles|
    ensures StoreWellFormed(s.(profiles := s.profiles[..i] + s.profiles[i + 1..]))
  {
    hide ProfilesWellFormed, ProfileKnownBy, TagsDistinct, Extension;
    RemovedProfiles(s.profiles, i);
  }

  lemma ExportLive(c: Crypto, w: World, profileId: Bytes16, keyId: Bytes16)
    requires Invariant(c, w) && profileId in w.secrets
    ensures var secret := w.secrets[profileId];
      var r := ExportPrivateKey(c, w.store, profileId, keyId, secret.password);
      && (r.Ok? <==> ListsKey(secret.payload.keys, keyId))
      && (r.Err? ==> r == Err(SoftwareKeyNotFound))
      && (r.Ok? ==> exists i | 0 <= i < |secret.payload.keys| ::
            secret.payload.keys[i].keyId == keyId && secret.payload.keys[i].privateKey == r.value)
  {
    hide DecodeStore, StoreInvariant, OpenProfile, PlainPayload, KeysDistinct, ProfileIndex, ListsKey, FindKey;
    var s, i := KnownOpens(c, w, profileId);
    KeyFound(w.secrets[profileId].payload.keys, keyId);
  }

  // ----- authentication

  // No operation on a profile gets past a failed authentication, nor changes its error.
  lemma OnlyAuthenticated(
    c: Crypto, store: seq<byte>, s: Store, profileId: Bytes16, password: seq<byte>, e: ErrorCode, chain: Chain,
    accountIndex: u64, privateKey: seq<byte>, keyId: Bytes16, newPassword: seq<byte>, random: Random)
    requires DecodeStore(store) == Ok(s) && Authenticate(c, s, profileId, password) == Err(e)
    ensures DeriveSoftwareKey(c, store, profileId, password, chain, accountIndex, random) == Err(e)
    ensures ImportSoftwareKey(c, store, profileId, password, chain, privateKey, random) == Err(e)
    ensures GenerateSoftwareKey(c, store, profileId, password, chain, random) == Err(e)
    ensures DeleteSoftwareKey(c, store, profileId, keyId, password, random) == Err(e)
    ensures DeleteProfile(c, store, profileId, password) == Err(e)
    ensures ExportPrivateKey(c, store, profileId, keyId, password) == Err(e)
    ensures ValidPassword(newPassword) ==>
      ChangeProfilePassword(c, store, profileId, password, newPassword, random) == Err(e)
  {
    hide DecodeStore, OpenProfile, ProfileIndex, ValidPassword, AddKey, DerivePrivateKey, ValidPrivateKey, EncodeStore,
      GeneratePrivateKey, Reencrypt, WithoutKey, FindKey;
  }

  // ----- creating profiles

  lemma CreatedFits(c: Crypto, s: Store, secrets: map<Bytes16, Secret>, p: Profile)
    requires StoreInvariant(c, s, secrets) && StoreWellFormed(WithProfile(s, p))
    requires PlainProfile(p) && p.index == [] && |p.cipher.ciphertext| <= 40
    ensures SizeFits(WithProfile(s, p))
  {
    hide StoreWellFormed, ProfileKnownBy, TagsDistinct, StoreToValue, Wire, PlainProfile, Insert, Sort;
    var t := WithProfile(s, p);
    var k := InsertSplits(ProfileLess, s.profiles, p);
    forall j | 0 <= j < |t.profiles| ensures SmallPlain(t.profiles[j]) {
      if j != k {
        var i := if j < k then j else j - 1;
        assert t.profiles[j] == s.profiles[i];
        KnownSmall(c, s, secrets, i);
      }
    }
    SortedStore(t);
    StoreSize(t);
  }

  // A mnemonic is restored exactly when it is good, no profile carries the HMAC of it and the
  // network, all is drawn, and there are fewer than 128 profiles.
  lemma RestoreLive(
    c: Crypto, w: World, mnemonic: seq<byte>, password: seq<byte>, network: Network, random: Random) returns (s: Store)
    requires Invariant(c, w)
    ensures DecodeStore(w.store) == Ok(s)
    ensures var (r, entropy) := (
        RestoreProfile(c, w.store, mnemonic, password, network, random), c.parseMnemonic(mnemonic));
      r.Ok? <==>
        && ValidPassword(password) && entropy.Some?
        && !HoldsMnemonic(c, s, network, entropy.value)
        && AnyFree(random.ids, ProfileIds(s.profiles)) && ProfileDrawn(random)
        && |s.profiles| < 128
  {
    hide DecodeStore, StoreInvariant, ValidPassword, HoldsMnemonic, AnyFree, ProfileDrawn, ProfileIds, RestoreProfile,
      PlainProfile, StoreWellFormed, SizeFits, StoreToValue, Wire, FirstFree, WithProfile;
    s := DecodeStore(w.store).value;
    RestoreExactly(c, w.store, mnemonic, password, network, random);
    if ValidPassword(password) && c.parseMnemonic(mnemonic).Some? {
      var entropy := c.parseMnemonic(mnemonic).value;
      if !HoldsMnemonic(c, s, network, entropy) && AnyFree(random.ids, ProfileIds(s.profiles)) && ProfileDrawn(random) {
        var id, p := RestoreSucceeds(c, w.store, s, mnemonic, entropy, password, network, random);
        if |s.profiles| < 128 {
          CreatedFits(c, s, w.secrets, p);
        }
      }
    }
  }

  // With an HMAC that does not collide on the mnemonics at hand, a profile carries the tag exactly
  // when it is a profile of that network with that entropy.
  lemma HeldExactly(c: Crypto, w: World, s: Store, network: Network, entropy: Bytes32, entropies: set<Bytes32>)
    requires Invariant(c, w) && DecodeStore(w.store) == Ok(s)
    requires Separates(c, s.registryKey, entropies) && entropy in entropies
    requires forall id | id in w.secrets :: w.secrets[id].payload.entropy in entropies
    ensures HoldsMnemonic(c, s, network, entropy) <==>
      exists i | 0 <= i < |s.profiles| ::
        && s.profiles[i].network == network && s.profiles[i].profileId in w.secrets
        && w.secrets[s.profiles[i].profileId].payload.entropy == entropy
  {
    hide DecodeStore, StoreInvariant, TagMessage;
    forall i | 0 <= i < |s.profiles|
      ensures s.profiles[i].profileId in w.secrets
      ensures s.profiles[i].duplicateTag == c.hmacSha256(s.registryKey,
        TagMessage(s.profiles[i].network, w.secrets[s.profiles[i].profileId].payload.entropy))
    {
      KnownTag(c, s, w.secrets, i);
    }
  }

  lemma KnownTag(c: Crypto, s: Store, secrets: map<Bytes16, Secret>, i: nat)
    requires StoreInvariant(c, s, secrets) && i < |s.profiles|
    ensures s.profiles[i].profileId in secrets
    ensures s.profiles[i].duplicateTag ==
      c.hmacSha256(s.registryKey, TagMessage(s.profiles[i].network, secrets[s.profiles[i].profileId].payload.entropy))
  {
    hide StoreInvariant, TagMessage, DuplicateTag, SoundProfile, SmallPlain;
    InvariantProfileSound(c, s, secrets, i);
    InvariantListed(c, s, secrets, i);
    TagExactly(c, s.registryKey, s.profiles[i].network, secrets[s.profiles[i].profileId].payload.entropy);
  }

  lemma InvariantListed(c: Crypto, s: Store, secrets: map<Bytes16, Secret>, i: nat)
    requires StoreInvariant(c, s, secrets) && i < |s.profiles|
    ensures s.profiles[i].profileId in secrets
  {
    hide ProfileInvariant, StoreWellFormed, TagsDistinct;
    assert ProfileKnownBy(c, s.registryKey, s.profiles[i], secrets);
  }

  // A profile is prepared exactly when the password is good and all is drawn; the envelope then
  // holds these draws.
  lemma PrepareLive(c: Crypto, store: seq<byte>, s: Store, password: seq<byte>, network: Network, random: Random)
    requires DecodeStore(store) == Ok(s)
    ensures PrepareGeneratedProfile(c, store, password, network, random).Ok? <==>
      && ValidPassword(password) && random.entropy.Some?
      && AnyFree(random.ids, ProfileIds(s.profiles)) && ProfileDrawn(random)
    ensures PrepareGeneratedProfile(c, store, password, network, random).Err? ==>
      PrepareGeneratedProfile(c, store, password, network, random) ==
        Err(if ValidPassword(password) then RandomSourceFailure else InvalidArgument)
  {
    hide DecodeStore, ValidPassword, FreshId, ProfileIds, AnyFree, FirstFree, EncodePending, PendingAad;
    FreshIdExactly(random.ids, ProfileIds(s.profiles));
  }

  // And finalized exactly when the Store is the one it was prepared for and has room, it opens
  // under the password, its id and its mnemonic are new, and salt and nonce are drawn.
  lemma FinalizeLive(
    c: Crypto, w: World, s: Store, pending: seq<byte>, p: Envelope, password: seq<byte>, random: Random)
    requires Invariant(c, w) && DecodeStore(w.store) == Ok(s) && ParsePending(pending) == Ok(p)
    ensures var o := c.unseal(c.argon2id(password, p.salt), p.nonce, p.tag, PendingAad(p), p.ciphertext);
      FinalizeGeneratedProfile(c, w.store, pending, password, random).Ok? <==>
        && ValidPassword(password) && p.targetStoreHash == c.sha256(w.store)
        && o.Some? && |o.value| == 32 && !HoldsMnemonic(c, s, p.network, o.value)
        && p.profileId !in ProfileIds(s.profiles) && ProfileDrawn(random)
        && |s.profiles| < 128
  {
    hide DecodeStore, StoreInvariant, ValidPassword, HoldsMnemonic, ProfileDrawn, ProfileIds, DuplicateTag, TagTaken,
      PlainProfile, StoreWellFormed, SizeFits, StoreToValue, Wire, PendingAad, AddProfile, WithProfile, ParsePending;
    var o := c.unseal(c.argon2id(password, p.salt), p.nonce, p.tag, PendingAad(p), p.ciphertext);
    if ValidPassword(password) && o.Some? && |o.value| == 32 {
      InvariantStore(c, s, w.secrets);
      TakenExactly(c, s, p.network, o.value);
      if p.profileId !in ProfileIds(s.profiles) {
        var added := CreateOutcome(c, s, p.profileId, p.network, o.value, password, random);
        if ProfileDrawn(random) && |s.profiles| < 128 {
          CreatedFits(c, s, w.secrets, added);
        }
      }
    }
  }
}
