// What the mutations write: the replacement Store is accepted again, authenticates to the
// payload written, and differs from the old one only where the operation says.
module MutationTheory {
  import opened Wrappers
  import opened Bytes
  import opened Sorting
  import opened Cbor
  import opened WalletTypes
  import opened WalletCrypto
  import opened StoreFormat
  import opened StoreFormatTheory
  import opened PayloadTheory
  import opened StoreOps
  import opened IndexTheory
  import opened SealTheory
  import opened WireSizes

  // ----- finding profiles and keys

  lemma {:induction false} ProfileIndexFinds(profiles: seq<Profile>, i: nat)
    requires StrictlySorted(ProfileLess, profiles) && i < |profiles|
    ensures ProfileIndex(profiles, profiles[i].profileId) == Ok(i)
  {
    if i > 0 {
      assert ProfileLess(profiles[0], profiles[i]);
      LessAsymmetric(profiles[0].profileId, profiles[i].profileId);
      forall p, q | 0 <= p < q < |profiles[1..]| ensures ProfileLess(profiles[1..][p], profiles[1..][q]) {
        assert ProfileLess(profiles[p + 1], profiles[q + 1]);
      }
      ProfileIndexFinds(profiles[1..], i - 1);
    }
  }

  lemma ReplacedProfiles(profiles: seq<Profile>, i: nat, q: Profile)
    requires ProfilesWellFormed(profiles) && i < |profiles|
    requires ProfileWellFormed(q) && q.profileId == profiles[i].profileId
    ensures ProfilesWellFormed(profiles[i := q])
  {
    hide ProfileWellFormed, Less;
    var replaced := profiles[i := q];
    forall p, r | 0 <= p < r < |replaced| ensures ProfileLess(replaced[p], replaced[r]) {
      assert ProfileLess(profiles[p], profiles[r]);
    }
  }

  // ----- mutations of one profile

  // `t` is `s` with the payload of profile i replaced by one that holds `keys`.
  ghost predicate OnlyKeysChanged(s: Store, t: Store, i: nat, keys: seq<KeyRecord>) {
    && i < |s.profiles| == |t.profiles|
    && t.registryKey == s.registryKey && t.unknown == s.unknown
    && (forall j | 0 <= j < |s.profiles| :: j != i ==> t.profiles[j] == s.profiles[j])
    && EnvelopeKept(s.profiles[i], t.profiles[i], keys)
  }

  ghost predicate EnvelopeKept(p: Profile, q: Profile, keys: seq<KeyRecord>) {
    && q.profileId == p.profileId && q.network == p.network && q.duplicateTag == p.duplicateTag
    && q.unknown == p.unknown && q.kdf.unknown == p.kdf.unknown && q.cipher.unknown == p.cipher.unknown
    && q.index == IndexOfKeys(keys)
    && q.aadIndex == MergeIndex(q.index, p.aadIndex)
    && (forall i | 0 <= i < |keys| :: UnknownOf(q.aadIndex, keys[i].keyId) == UnknownOf(p.aadIndex, keys[i].keyId))
  }

  lemma Reencrypted(
    c: Crypto, s: Store, i: nat, payload: Payload, password: seq<byte>, changePassword: bool, random: Random, t: Store)
    requires StoreWellFormed(s) && i < |s.profiles|
    requires Belongs(c, s.registryKey, s.profiles[i], payload)
    requires Reencrypt(c, s, i, payload, password, changePassword, random) == Ok(t)
    ensures OnlyKeysChanged(s, t, i, Ordered(payload).keys)
    ensures if changePassword then random.salt == Some(t.profiles[i].kdf.salt) else t.profiles[i].kdf == s.profiles[i].kdf
    ensures random.nonce == Some(t.profiles[i].cipher.nonce)
    ensures EncodePayload(payload).Ok? && |t.profiles[i].cipher.ciphertext| == |EncodePayload(payload).value|
    ensures |EncodePayload(payload).value| <= MAX_CIPHERTEXT ==>
      StoreWellFormed(t) && OpenProfile(c, s.registryKey, t.profiles[i], password) == Ok(Ordered(payload))
  {
    hide OpenProfile, EncodePayload, ReencryptProfile, ProfileWellFormed, Sort, IndexOfKeys, MergeIndex, UnknownOf,
      Extension, KeyWellFormed, ValidPrivateKey, DuplicateTag, Less;
    var q := t.profiles[i];
    var keys := Ordered(payload).keys;
    ReencryptedProfile(c, s.registryKey, s.profiles[i], payload, password, changePassword, random, q);
    IndexOfSorted(keys);
    forall k | 0 <= k < |keys|
      ensures UnknownOf(q.aadIndex, keys[k].keyId) == UnknownOf(s.profiles[i].aadIndex, keys[k].keyId)
    {
      assert q.index[k].keyId == keys[k].keyId;
      RelistedKeepsUnknown(s.profiles[i], q.index, keys[k].keyId);
    }
    if |EncodePayload(payload).value| <= MAX_CIPHERTEXT {
      ReplacedProfiles(s.profiles, i, q);
    }
  }

  // The replacement Store decodes to what was encoded and authenticates to what was written.
  ghost predicate Written(c: Crypto, bytes: seq<byte>, t: Store, profileId: Bytes16, password: seq<byte>, payload: Payload) {
    && DecodeStore(bytes) == Ok(t)
    && Authenticate(c, t, profileId, password) == Ok(payload)
  }

  lemma WrittenBack(
    c: Crypto, t: Store, i: nat, bytes: seq<byte>, password: seq<byte>, payload: Payload)
    requires StoreWellFormed(t) && EncodeStore(t) == Ok(bytes) && i < |t.profiles|
    requires OpenProfile(c, t.registryKey, t.profiles[i], password) == Ok(payload)
    ensures Written(c, bytes, t, t.profiles[i].profileId, password, payload)
  {
    hide OpenProfile, ProfileWellFormed, Extension, EncodeStore, DecodeStore;
    StoreCodec(bytes, t);
    ProfileIndexFinds(t.profiles, i);
  }

  // ----- adding a key

  function NewKey(keyId: Bytes16, chain: Chain, privateKey: Bytes32, origin: Origin): KeyRecord {
    KeyRecord(keyId, chain, privateKey, origin, [], [])
  }

  lemma AppendedKeyWellFormed(keys: seq<KeyRecord>, key: KeyRecord)
    requires KeysWellFormed(keys) && KeyWellFormed(key) && key.keyId !in KeyIds(keys)
    ensures KeysWellFormed(Sort(KeyIdLess, keys + [key]))
  {
    hide KeyWellFormed, Less, Order, StrictlySorted, KeyIds, Sort;
    var all := keys + [key];
    LessOrder();
    AppendedComparable(keys, key);
    SortStrictly(KeyIdLess, all);
    SortPermutes(KeyIdLess, all);
    AllKeysWellFormed(all, Sort(KeyIdLess, all));
  }

  lemma AppendedComparable(keys: seq<KeyRecord>, key: KeyRecord)
    requires StrictlySorted(KeyIdLess, keys) && key.keyId !in KeyIds(keys)
    ensures var all := keys + [key];
      forall i, j | 0 <= i < j < |all| :: KeyIdLess(all[i], all[j]) || KeyIdLess(all[j], all[i])
  {
    hide Less;
    var all := keys + [key];
    forall i, j | 0 <= i < j < |all| ensures KeyIdLess(all[i], all[j]) || KeyIdLess(all[j], all[i]) {
      if j < |keys| {
        assert KeyIdLess(keys[i], keys[j]);
      } else {
        assert KeyIds(keys)[i] == keys[i].keyId;
        LessTotal(all[i].keyId, all[j].keyId);
      }
    }
  }

  lemma AllKeysWellFormed(keys: seq<KeyRecord>, sorted: seq<KeyRecord>)
    requires multiset(keys) == multiset(sorted)
    requires forall i | 0 <= i < |keys| :: KeyWellFormed(keys[i])
    ensures forall i | 0 <= i < |sorted| :: KeyWellFormed(sorted[i])
  {
    hide KeyWellFormed;
    PermutationMembers(keys, sorted);
    forall i | 0 <= i < |sorted| ensures KeyWellFormed(sorted[i]) {
      assert sorted[i] in keys;
    }
  }

  lemma AppendedBelongs(c: Crypto, registryKey: Bytes32, p: Profile, payload: Payload, key: KeyRecord)
    requires Belongs(c, registryKey, p, payload) && PayloadWellFormed(payload)
    requires KeyWellFormed(key) && ValidPrivateKey(key.privateKey) && key.keyId !in KeyIds(payload.keys)
    requires |payload.keys| < MAX_KEYS
    ensures Belongs(c, registryKey, p, payload.(keys := payload.keys + [key]))
  {
    hide KeyWellFormed, ValidPrivateKey, DuplicateTag, Extension, Sort, KeyIds;
    AppendedKeyWellFormed(payload.keys, key);
  }

  lemma {:induction false} NotAmong(keys: seq<KeyRecord>, keyId: Bytes16)
    ensures keyId in KeyIds(keys) <==> exists i :: 0 <= i < |keys| && keys[i].keyId == keyId
  {
    var ids := KeyIds(keys);
    if keyId in ids {
      var i :| 0 <= i < |ids| && ids[i] == keyId;
      assert keys[i].keyId == keyId;
    }
    if exists i :: 0 <= i < |keys| && keys[i].keyId == keyId {
      var i :| 0 <= i < |keys| && keys[i].keyId == keyId;
      assert ids[i] == keyId;
    }
  }

  lemma AddedKey(
    c: Crypto, s: Store, i: nat, payload: Payload, chain: Chain, privateKey: Bytes32, origin: Origin,
    password: seq<byte>, random: Random, m: Mutation<SoftwareKeyInfo>) returns (t: Store)
    requires StoreWellFormed(s) && i < |s.profiles|
    requires OpenProfile(c, s.registryKey, s.profiles[i], password) == Ok(payload)
    requires ValidPrivateKey(privateKey)
    requires AddKey(c, s, i, payload, chain, privateKey, origin, password, random) == Ok(m)
    ensures m.value.chain == chain && m.value.origin == origin && m.value.keyId !in KeyIds(payload.keys)
    ensures !HasKey(payload.keys, chain, privateKey) && |payload.keys| < MAX_KEYS
    ensures var key := NewKey(m.value.keyId, chain, privateKey, origin);
      var updated := Ordered(payload.(keys := payload.keys + [key]));
      && OnlyKeysChanged(s, t, i, updated.keys)
      && t.profiles[i].kdf == s.profiles[i].kdf && random.nonce == Some(t.profiles[i].cipher.nonce)
      && EncodeStore(t) == Ok(m.store)
      && EncodePayload(updated).Ok?
      && |t.profiles[i].cipher.ciphertext| == |EncodePayload(updated).value|
      && (|EncodePayload(updated).value| <= MAX_CIPHERTEXT ==>
          && StoreWellFormed(t)
          && OpenProfile(c, s.registryKey, t.profiles[i], password) == Ok(updated)
          && Written(c, m.store, t, s.profiles[i].profileId, password, updated))
  {
    hide OpenProfile, EncodePayload, EncodeStore, Reencrypt, StoreWellFormed, KeyWellFormed, ValidPrivateKey, Sort, KeyIds,
      HasKey, PayloadWellFormed, Extension, DuplicateTag, UnknownOf, IndexOfKeys, Written, OnlyKeysChanged;
    var key := NewKey(m.value.keyId, chain, privateKey, origin);
    var unordered := payload.(keys := payload.keys + [key]);
    t := Reencrypt(c, s, i, unordered, password, false, random).value;
    OpenedBelongs(c, s.registryKey, s.profiles[i], password, payload);
    ReencryptBoundsKeys(c, s, i, unordered, password, false, random);
    NewKeyWellFormed(key);
    AppendedBelongs(c, s.registryKey, s.profiles[i], payload, key);
    Reencrypted(c, s, i, unordered, password, false, random, t);
    OrderedEncoding(unordered);
    KeysChangedIds(s, t, i, Ordered(unordered).keys);
    if |EncodePayload(unordered).value| <= MAX_CIPHERTEXT {
      WrittenBack(c, t, i, m.store, password, Ordered(unordered));
    }
  }

  lemma KeysChangedIds(s: Store, t: Store, i: nat, keys: seq<KeyRecord>)
    requires OnlyKeysChanged(s, t, i, keys)
    ensures i < |s.profiles| == |t.profiles| && t.registryKey == s.registryKey
    ensures t.profiles[i].profileId == s.profiles[i].profileId
  {
  }

  lemma NewKeyWellFormed(key: KeyRecord)
    requires key.unknown == [] && key.originUnknown == []
    ensures KeyWellFormed(key)
  {
  }

  lemma ReencryptBoundsKeys(
    c: Crypto, s: Store, i: nat, payload: Payload, password: seq<byte>, changePassword: bool, random: Random)
    requires i < |s.profiles|
    requires Reencrypt(c, s, i, payload, password, changePassword, random).Ok?
    ensures |payload.keys| <= MAX_KEYS
  {
    hide Encode, PayloadToValue, Aad, MergeIndex, IndexFromPayload, Sort;
  }

  // ----- changing the password

  lemma ChangedPassword(
    c: Crypto, store: seq<byte>, s: Store, profileId: Bytes16, current: seq<byte>, password: seq<byte>, random: Random,
    m: Mutation<()>) returns (i: nat, payload: Payload, t: Store)
    requires DecodeStore(store) == Ok(s)
    requires ChangeProfilePassword(c, store, profileId, current, password, random) == Ok(m)
    ensures i < |s.profiles| && ProfileIndex(s.profiles, profileId) == Ok(i)
    ensures Authenticate(c, s, profileId, current) == Ok(payload)
    ensures OnlyKeysChanged(s, t, i, payload.keys) && StoreWellFormed(t)
    ensures random.salt == Some(t.profiles[i].kdf.salt) && random.nonce == Some(t.profiles[i].cipher.nonce)
    ensures |t.profiles[i].cipher.ciphertext| == |s.profiles[i].cipher.ciphertext|
    ensures OpenProfile(c, t.registryKey, t.profiles[i], password) == Ok(payload)
    ensures Written(c, m.store, t, profileId, password, payload)
  {
    hide OpenProfile, EncodePayload, EncodeStore, Reencrypt, StoreWellFormed, ValidPassword, Sort, DecodeStore,
      PayloadWellFormed, Extension, DuplicateTag, UnknownOf, IndexOfKeys, Written, OnlyKeysChanged, Belongs;
    i := ProfileIndex(s.profiles, profileId).value;
    payload := Authenticate(c, s, profileId, current).value;
    t := Reencrypt(c, s, i, payload, password, true, random).value;
    StoreCodec(store, s);
    OpenedBelongs(c, s.registryKey, s.profiles[i], current, payload);
    Reencrypted(c, s, i, payload, password, true, random, t);
    KeysChangedIds(s, t, i, payload.keys);
    WrittenBack(c, t, i, m.store, password, payload);
  }

  // ----- deleting a key

  lemma {:induction false} WithoutKeyKeeps(keys: seq<KeyRecord>, keyId: Bytes16)
    requires StrictlySorted(KeyIdLess, keys)
    ensures var kept := WithoutKey(keys, keyId);
      && StrictlySorted(KeyIdLess, kept)
      && (forall k :: k in kept <==> k in keys && k.keyId != keyId)
  {
    hide Less;
    if keys != [] {
      var front, last := keys[..|keys| - 1], keys[|keys| - 1];
      assert keys == front + [last];
      WithoutKeyKeeps(front, keyId);
      var kept := WithoutKey(front, keyId);
      forall k | k in kept ensures KeyIdLess(k, last) {
        assert k in front;
        var j :| 0 <= j < |front| && front[j] == k;
        assert KeyIdLess(keys[j], keys[|keys| - 1]);
      }
    }
  }

  // Removing keys never makes the encoding longer.
  lemma {:induction false} WithoutKeySize(keys: seq<KeyRecord>, keyId: Bytes16)
    ensures |WithoutKey(keys, keyId)| <= |keys|
    ensures |WireItems(KeyValues(WithoutKey(keys, keyId)))| <= |WireItems(KeyValues(keys))|
  {
    hide KeyToValue, Wire;
    if keys != [] {
      var front, last := keys[..|keys| - 1], keys[|keys| - 1];
      WithoutKeySize(front, keyId);
      AppendedItemsSize(KeyValues(front), KeyToValue(last));
      var kept := WithoutKey(front, keyId);
      AppendKeyValue(kept, last);
      AppendedItemsSize(KeyValues(kept), KeyToValue(last));
    }
  }

  lemma {:induction false} AppendedItemsSize(items: seq<Value>, item: Value)
    ensures |WireItems(items + [item])| == |WireItems(items)| + |Wire(item)|
  {
    hide Wire;
    if items != [] {
      AppendedItemsSize(items[1..], item);
      assert (items + [item])[1..] == items[1..] + [item];
    }
  }

  lemma SmallerPayload(payload: Payload, kept: Payload)
    requires PayloadWellFormed(payload) && PayloadWellFormed(kept)
    requires kept.entropy == payload.entropy && kept.unknown == payload.unknown && |kept.keys| <= |payload.keys|
    requires |WireItems(KeyValues(kept.keys))| <= |WireItems(KeyValues(payload.keys))|
    ensures EncodePayload(kept).Ok? && EncodePayload(payload).Ok?
    ensures |EncodePayload(kept).value| <= |EncodePayload(payload).value|
  {
    hide EncodePayload, PayloadWellFormed, KeyValues, WireItems;
    PayloadEncoding(payload);
    PayloadEncoding(kept);
    PayloadWire(payload);
    PayloadWire(kept);
    HeadGrows(4, |kept.keys|, |payload.keys|);
  }

  lemma HeadGrows(major: nat, m: u64, n: u64)
    requires major < 8 && m <= n
    ensures |Head(major, m)| <= |Head(major, n)|
  {
    HeadSize(major, m);
    HeadSize(major, n);
  }

  lemma PayloadWire(payload: Payload)
    requires PayloadWellFormed(payload)
    ensures |payload.keys| <= MAX_KEYS
    ensures |Wire(PayloadToValue(payload))| ==
      |Head(5, AsU64(2 + |payload.unknown|))| + |WireEntry(Entry(0, Bytes(payload.entropy)))| + |Head(0, 1)|
      + |Head(4, |payload.keys|)| + |WireItems(KeyValues(payload.keys))| + |WireEntries(payload.unknown)|
  {
    hide KeyWellFormed, Extension, KeyToValue, KeyValues, WireItems, Head;
    OrderedIsSame(payload);
    var entropy, keys := Entry(0, Bytes(payload.entropy)), Entry(1, Array(KeyValues(payload.keys)));
    FieldsSize(entropy, keys, payload.unknown);
  }

  lemma FieldsSize(a: Entry, b: Entry, rest: seq<Entry>)
    ensures |WireEntries([a, b] + rest)| == |WireEntry(a)| + |WireEntry(b)| + |WireEntries(rest)|
  {
    hide WireEntry;
    var fields := [a, b] + rest;
    assert fields[1..] == [b] + rest;
    assert ([b] + rest)[1..] == rest;
  }

  lemma DeletedKey(
    c: Crypto, store: seq<byte>, s: Store, profileId: Bytes16, keyId: Bytes16, password: seq<byte>, random: Random,
    m: Mutation<()>) returns (i: nat, payload: Payload, t: Store)
    requires DecodeStore(store) == Ok(s)
    requires DeleteSoftwareKey(c, store, profileId, keyId, password, random) == Ok(m)
    ensures i < |s.profiles| && ProfileIndex(s.profiles, profileId) == Ok(i)
    ensures Authenticate(c, s, profileId, password) == Ok(payload)
    ensures var kept := WithoutKey(payload.keys, keyId);
      && OnlyKeysChanged(s, t, i, kept)
      && t.profiles[i].kdf == s.profiles[i].kdf && random.nonce == Some(t.profiles[i].cipher.nonce)
      && StoreWellFormed(t)
      && |t.profiles[i].cipher.ciphertext| <= |s.profiles[i].cipher.ciphertext|
      && OpenProfile(c, t.registryKey, t.profiles[i], password) == Ok(payload.(keys := kept))
      && Written(c, m.store, t, profileId, password, payload.(keys := kept))
  {
    hide OpenProfile, EncodePayload, EncodeStore, Reencrypt, StoreWellFormed, Sort, DecodeStore, WithoutKey,
      PayloadWellFormed, Extension, DuplicateTag, UnknownOf, IndexOfKeys, Written, OnlyKeysChanged, Belongs, KeyValues;
    i := ProfileIndex(s.profiles, profileId).value;
    payload := Authenticate(c, s, profileId, password).value;
    var kept := payload.(keys := WithoutKey(payload.keys, keyId));
    t := Reencrypt(c, s, i, kept, password, false, random).value;
    StoreCodec(store, s);
    OpenedBelongs(c, s.registryKey, s.profiles[i], password, payload);
    KeptBelongs(c, s.registryKey, s.profiles[i], payload, keyId);
    WithoutKeySize(payload.keys, keyId);
    SmallerPayload(payload, kept);
    Reencrypted(c, s, i, kept, password, false, random, t);
    KeysChangedIds(s, t, i, kept.keys);
    WrittenBack(c, t, i, m.store, password, kept);
  }

  lemma KeptBelongs(c: Crypto, registryKey: Bytes32, p: Profile, payload: Payload, keyId: Bytes16)
    requires Belongs(c, registryKey, p, payload) && PayloadWellFormed(payload)
    ensures var kept := payload.(keys := WithoutKey(payload.keys, keyId));
      Belongs(c, registryKey, p, kept) && PayloadWellFormed(kept) && Ordered(kept) == kept
  {
    hide KeyWellFormed, ValidPrivateKey, DuplicateTag, Extension, WithoutKey;
    var kept := payload.(keys := WithoutKey(payload.keys, keyId));
    WithoutKeyKeeps(payload.keys, keyId);
    OrderedIsSame(kept);
    forall i | 0 <= i < |kept.keys|
      ensures KeyWellFormed(kept.keys[i]) && ValidPrivateKey(kept.keys[i].privateKey)
    {
      assert kept.keys[i] in payload.keys;
    }
  }
}
