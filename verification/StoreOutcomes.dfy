// When each operation succeeds and what each error means, for any accepted Store.
module StoreOutcomes {
  import opened Wrappers
  import opened Bytes
  import opened Sorting
  import opened Cbor
  import opened WalletTypes
  import opened WalletCrypto
  import opened StoreFormat
  import opened StoreFormatTheory
  import opened PayloadTheory
  import opened StoreOps
  import opened IndexTheory
  import opened SealTheory
  import opened WireSizes
  import opened MutationTheory
  import opened ProfileTheory
  import opened KeyTheory

  // ----- draws

  ghost predicate AnyFree(ids: seq<Bytes16>, taken: seq<Bytes16>) {
    exists j | 0 <= j < |ids| :: ids[j] !in taken
  }

  ghost predicate FirstFree(ids: seq<Bytes16>, taken: seq<Bytes16>, id: Bytes16) {
    exists j | 0 <= j < |ids| :: ids[j] == id && id !in taken && forall k | 0 <= k < j :: ids[k] in taken
  }

  // The id drawn is the first free one; the draw fails exactly when none is free.
  lemma {:induction false} FreshIdExactly(ids: seq<Bytes16>, taken: seq<Bytes16>)
    ensures FreshId(ids, taken).Ok? <==> AnyFree(ids, taken)
    ensures FreshId(ids, taken).Ok? ==> FirstFree(ids, taken, FreshId(ids, taken).value)
    ensures FreshId(ids, taken).Err? ==> FreshId(ids, taken) == Err(RandomSourceFailure)
  {
    if ids != [] {
      var rest := ids[1..];
      FreshIdExactly(rest, taken);
      assert forall k | 1 <= k < |ids| :: ids[k] == rest[k - 1];
      if ids[0] !in taken {
        assert ids[0] == FreshId(ids, taken).value;
      } else if FreshId(rest, taken).Ok? {
        var id := FreshId(rest, taken).value;
        var j :| 0 <= j < |rest| && rest[j] == id && id !in taken && forall k | 0 <= k < j :: rest[k] in taken;
        assert ids[j + 1] == id;
      }
    }
  }

  ghost predicate NonZeroKey(key: Bytes32) {
    exists i | 0 <= i < 32 :: key[i] != 0
  }

  ghost predicate AnyNonZero(candidates: seq<Bytes32>) {
    exists j | 0 <= j < |candidates| :: NonZeroKey(candidates[j])
  }

  ghost predicate FirstNonZero(candidates: seq<Bytes32>, key: Bytes32) {
    exists j | 0 <= j < |candidates| ::
      candidates[j] == key && NonZeroKey(key) && forall k | 0 <= k < j :: !NonZeroKey(candidates[k])
  }

  // The key generated is the first candidate that is not zero.
  lemma {:induction false} GeneratedExactly(candidates: seq<Bytes32>)
    ensures GeneratePrivateKey(candidates).Ok? <==> AnyNonZero(candidates)
    ensures GeneratePrivateKey(candidates).Ok? ==> FirstNonZero(candidates, GeneratePrivateKey(candidates).value)
    ensures GeneratePrivateKey(candidates).Err? ==> GeneratePrivateKey(candidates) == Err(RandomSourceFailure)
  {
    hide NonZeroKey, ValidPrivateKey;
    if candidates != [] {
      var rest := candidates[1..];
      GeneratedExactly(rest);
      ValidIsNonZero(candidates[0]);
      assert forall k | 1 <= k < |candidates| :: candidates[k] == rest[k - 1];
      if NonZeroKey(candidates[0]) {
        assert candidates[0] == GeneratePrivateKey(candidates).value;
      } else if GeneratePrivateKey(rest).Ok? {
        var key := GeneratePrivateKey(rest).value;
        var j :| 0 <= j < |rest| && rest[j] == key && NonZeroKey(key) && forall k | 0 <= k < j :: !NonZeroKey(rest[k]);
        assert candidates[j + 1] == key;
      }
    }
  }

  lemma ValidIsNonZero(key: Bytes32)
    ensures ValidPrivateKey(key) <==> NonZeroKey(key)
  {
  }

  // ----- lookups

  ghost predicate ListsProfile(profiles: seq<Profile>, profileId: Bytes16) {
    exists i | 0 <= i < |profiles| :: profiles[i].profileId == profileId
  }

  lemma {:induction false} ProfileFound(profiles: seq<Profile>, profileId: Bytes16)
    ensures ProfileIndex(profiles, profileId).Ok? <==> ListsProfile(profiles, profileId)
    ensures ProfileIndex(profiles, profileId).Err? ==> ProfileIndex(profiles, profileId) == Err(ProfileNotFound)
  {
    if profiles != [] {
      ProfileFound(profiles[1..], profileId);
      assert forall k | 1 <= k < |profiles| :: profiles[k] == profiles[1..][k - 1];
      if ListsProfile(profiles[1..], profileId) {
        var i :| 0 <= i < |profiles[1..]| && profiles[1..][i].profileId == profileId;
        assert profiles[i + 1].profileId == profileId;
      }
    }
  }

  ghost predicate ListsKey(keys: seq<KeyRecord>, keyId: Bytes16) {
    exists i | 0 <= i < |keys| :: keys[i].keyId == keyId
  }

  lemma {:induction false} NoneRemoved(keys: seq<KeyRecord>, keyId: Bytes16)
    ensures |WithoutKey(keys, keyId)| == |keys| <==> !ListsKey(keys, keyId)
  {
    if keys != [] {
      var front, last := keys[..|keys| - 1], keys[|keys| - 1];
      NoneRemoved(front, keyId);
      assert keys == front + [last];
      if ListsKey(front, keyId) {
        var i :| 0 <= i < |front| && front[i].keyId == keyId;
        assert keys[i].keyId == keyId;
      }
      if last.keyId == keyId {
        assert keys[|keys| - 1].keyId == keyId;
      }
    }
  }

  // A private key is exported exactly when the payload holds a key of that id, and is that key.
  lemma {:induction false} KeyFound(keys: seq<KeyRecord>, keyId: Bytes16)
    ensures FindKey(keys, keyId).Ok? <==> ListsKey(keys, keyId)
    ensures FindKey(keys, keyId).Err? ==> FindKey(keys, keyId) == Err(SoftwareKeyNotFound)
    ensures FindKey(keys, keyId).Ok? ==>
      exists i | 0 <= i < |keys| :: keys[i].keyId == keyId && keys[i].privateKey == FindKey(keys, keyId).value
  {
    if keys != [] {
      var rest := keys[1..];
      KeyFound(rest, keyId);
      assert forall k | 1 <= k < |keys| :: keys[k] == rest[k - 1];
      if keys[0].keyId == keyId {
        assert keys[0].privateKey == FindKey(keys, keyId).value;
      } else if FindKey(rest, keyId).Ok? {
        var i :| 0 <= i < |rest| && rest[i].keyId == keyId && rest[i].privateKey == FindKey(rest, keyId).value;
        assert keys[i + 1].keyId == keyId;
      }
    }
  }

  // ----- sealing

  lemma SealOutcome(
    c: Crypto, registryKey: Bytes32, p: Profile, payload: Payload, password: seq<byte>, drawn: Option<Bytes12>)
    requires ProfileWellFormed(p) && EncodePayload(payload).Ok? && ValidPassword(password)
    ensures SealProfile(c, registryKey, p, payload, password, drawn).Ok? <==> drawn.Some?
    ensures drawn.None? ==> SealProfile(c, registryKey, p, payload, password, drawn) == Err(RandomSourceFailure)
  {
    hide Aad, EncodePayload, ValidPassword, ProfileWellFormed;
    AadDetermines(registryKey, p, registryKey, p);
  }

  // Re-encryption needs its draws, and room for the keys.
  lemma ReencryptOutcome(
    c: Crypto, registryKey: Bytes32, p: Profile, payload: Payload, password: seq<byte>, changePassword: bool,
    random: Random)
    requires ProfileWellFormed(p) && PayloadWellFormed(Ordered(payload)) && ValidPassword(password)
    ensures var r := ReencryptProfile(c, registryKey, p, payload, password, changePassword, random);
      && (r.Ok? <==> random.nonce.Some? && (changePassword ==> random.salt.Some?))
      && (r.Err? ==> r == Err(RandomSourceFailure))
  {
    hide SealProfile, EncodePayload, ValidPassword, ProfileWellFormed, Sort, KeyWellFormed, MergeIndex, Relisted, Extension;
    var index := IndexFromPayload(payload);
    IndexOfSortedKeys(payload.keys);
    IndexOfSorted(Ordered(payload).keys);
    OrderedEncoding(payload);
    PayloadEncoding(Ordered(payload));
    if changePassword ==> random.salt.Some? {
      var salt := if changePassword then random.salt.value else p.kdf.salt;
      RelistedWellFormed(p, index, salt);
      SealOutcome(c, registryKey, Relisted(p, index, salt), payload, password, random.nonce);
    }
  }

  // With more than 256 keys there is nothing to seal.
  lemma TooManyKeys(
    c: Crypto, registryKey: Bytes32, p: Profile, payload: Payload, password: seq<byte>, random: Random)
    requires |payload.keys| > 256 && ValidPassword(password)
    ensures ReencryptProfile(c, registryKey, p, payload, password, false, random) ==
      Err(if random.nonce.None? then RandomSourceFailure else SerializationFailure)
  {
    hide Encode, PayloadToValue, IndexFromPayload, Relisted, ValidPassword;
  }

  // ----- adding a key

  ghost predicate SizeFits(t: Store) {
    |Wire(StoreToValue(t))| <= 16 * 1024 * 1024
  }

  ghost predicate PayloadFits(payload: Payload) {
    EncodePayload(payload).Ok? && |EncodePayload(payload).value| <= 1024 * 1024
  }

  ghost predicate KeyDrawn(payload: Payload, random: Random) {
    AnyFree(random.ids, KeyIds(payload.keys)) && random.nonce.Some?
  }

  // A key that is there already is refused first, then a missing draw.
  lemma AddKeyRefusals(
    c: Crypto, s: Store, i: nat, payload: Payload, chain: Chain, privateKey: Bytes32, origin: Origin,
    password: seq<byte>, random: Random)
    requires StoreWellFormed(s) && i < |s.profiles| && ValidPrivateKey(privateKey)
    requires OpenProfile(c, s.registryKey, s.profiles[i], password) == Ok(payload)
    ensures var r := AddKey(c, s, i, payload, chain, privateKey, origin, password, random);
      && (r == Err(DuplicateSoftwareKey) <==> HasKey(payload.keys, chain, privateKey))
      && (r == Err(RandomSourceFailure) <==>
          !HasKey(payload.keys, chain, privateKey) && !KeyDrawn(payload, random))
      && (r.Ok? ==>
          && FirstFree(random.ids, KeyIds(payload.keys), r.value.value.keyId)
          && r.value.value == SoftwareKeyInfo(r.value.value.keyId, chain, origin))
  {
    hide OpenProfile, EncodeStore, StoreWellFormed, KeyIds, HasKey, FreshId, AnyFree, FirstFree, Reencrypt;
    FreshIdExactly(random.ids, KeyIds(payload.keys));
    if !HasKey(payload.keys, chain, privateKey) && FreshId(random.ids, KeyIds(payload.keys)).Ok? {
      var keyId := FreshId(random.ids, KeyIds(payload.keys)).value;
      var t := AppendOutcome(c, s, i, payload, NewKey(keyId, chain, privateKey, origin), password, random);
      EncodeOutcome(t);
    }
  }

  // With both draws a new key is added unless it is the 257th or the new Store does not encode.
  lemma AddKeySucceeds(
    c: Crypto, s: Store, i: nat, payload: Payload, chain: Chain, privateKey: Bytes32, origin: Origin,
    password: seq<byte>, random: Random) returns (keyId: Bytes16, t: Store)
    requires StoreWellFormed(s) && i < |s.profiles| && ValidPrivateKey(privateKey)
    requires OpenProfile(c, s.registryKey, s.profiles[i], password) == Ok(payload)
    requires !HasKey(payload.keys, chain, privateKey) && KeyDrawn(payload, random)
    ensures FirstFree(random.ids, KeyIds(payload.keys), keyId)
    ensures var added := payload.(keys := payload.keys + [NewKey(keyId, chain, privateKey, origin)]);
      |payload.keys| < 256 ==>
        && OnlyKeysChanged(s, t, i, Ordered(added).keys)
        && (PayloadFits(added) ==>
            StoreWellFormed(t) && OpenProfile(c, s.registryKey, t.profiles[i], password) == Ok(Ordered(added)))
    ensures AddKey(c, s, i, payload, chain, privateKey, origin, password, random) ==
      if |payload.keys| < 256 && EncodeStore(t).Ok?
      then Ok(Mutation(EncodeStore(t).value, SoftwareKeyInfo(keyId, chain, origin))) else Err(SerializationFailure)
  {
    hide OpenProfile, EncodeStore, StoreWellFormed, KeyIds, HasKey, FreshId, AnyFree, FirstFree, Reencrypt,
      Ordered, EncodePayload, EnvelopeKept;
    FreshIdExactly(random.ids, KeyIds(payload.keys));
    keyId := FreshId(random.ids, KeyIds(payload.keys)).value;
    t := AppendOutcome(c, s, i, payload, NewKey(keyId, chain, privateKey, origin), password, random);
    EncodeOutcome(t);
  }

  lemma OpenedPassword(c: Crypto, registryKey: Bytes32, p: Profile, password: seq<byte>)
    requires OpenProfile(c, registryKey, p, password).Ok?
    ensures ValidPassword(password)
  {
    hide Aad, ValidPassword, ParsePayload, ValidateAuthenticated;
  }

  lemma AppendOutcome(
    c: Crypto, s: Store, i: nat, payload: Payload, key: KeyRecord, password: seq<byte>, random: Random)
    returns (t: Store)
    requires StoreWellFormed(s) && i < |s.profiles|
    requires OpenProfile(c, s.registryKey, s.profiles[i], password) == Ok(payload)
    requires key.unknown == [] && key.originUnknown == [] && ValidPrivateKey(key.privateKey)
    requires key.keyId !in KeyIds(payload.keys)
    ensures var updated := payload.(keys := payload.keys + [key]);
      var r := Reencrypt(c, s, i, updated, password, false, random);
      && (r == Err(RandomSourceFailure) <==> random.nonce.None?)
      && (random.nonce.Some? ==> r == if |payload.keys| < 256 then Ok(t) else Err(SerializationFailure))
      && (random.nonce.Some? && |payload.keys| < 256 ==>
          && OnlyKeysChanged(s, t, i, Ordered(updated).keys)
          && (PayloadFits(updated) ==>
              StoreWellFormed(t) && OpenProfile(c, s.registryKey, t.profiles[i], password) == Ok(Ordered(updated))))
  {
    hide EncodePayload, StoreWellFormed, KeyWellFormed, ValidPrivateKey, Sort, KeyIds, ReencryptProfile, Extension,
      OnlyKeysChanged, ValidPassword, ProfileWellFormed, OpenProfile, DuplicateTag;
    var updated := payload.(keys := payload.keys + [key]);
    t := s;
    OpenedBelongs(c, s.registryKey, s.profiles[i], password, payload);
    OpenedPassword(c, s.registryKey, s.profiles[i], password);
    if |payload.keys| >= 256 {
      TooManyKeys(c, s.registryKey, s.profiles[i], updated, password, random);
    } else {
      NewKeyWellFormed(key);
      AppendedBelongs(c, s.registryKey, s.profiles[i], payload, key);
      OneProfile(s, i);
      ReencryptOutcome(c, s.registryKey, s.profiles[i], updated, password, false, random);
      if random.nonce.Some? {
        t := Reencrypt(c, s, i, updated, password, false, random).value;
        Reencrypted(c, s, i, updated, password, false, random, t);
      }
    }
  }

  lemma OneProfile(s: Store, i: nat)
    requires StoreWellFormed(s) && i < |s.profiles|
    ensures ProfileWellFormed(s.profiles[i])
  {
    hide ProfileWellFormed;
  }

  lemma EncodeOutcome(t: Store)
    ensures EncodeStore(t).Err? ==> EncodeStore(t) == Err(SerializationFailure)
    ensures StoreWellFormed(t) ==> (EncodeStore(t).Ok? <==> SizeFits(t))
  {
    hide StoreWellFormed, StoreToValue, Wire, Encode;
    if StoreWellFormed(t) {
      StoreEncoding(t);
    }
  }
}
