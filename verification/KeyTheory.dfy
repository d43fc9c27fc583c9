// What an added key is good for: it can be exported, and deleting it undoes the addition up to
// the encryption. And what the AAD of a profile binds.
module KeyTheory {
  import opened Wrappers
  import opened Bytes
  import opened Sorting
  import opened Cbor
  import opened CborTheory
  import opened WalletTypes
  import opened WalletCrypto
  import opened StoreFormat
  import opened StoreFormatTheory
  import opened PayloadTheory
  import opened StoreOps
  import opened IndexTheory
  import opened SealTheory
  import opened MutationTheory
  import opened Oversize

  // ----- the AAD

  lemma AadCanonical(registryKey: Bytes32, p: Profile)
    requires ProfileWellFormed(p)
    ensures Canonical(AadValue(registryKey, p)) && MachineSized(AadValue(registryKey, p))
  {
    hide Canonical, Within, ParseIndex, Extension, KdfWellFormed, CipherWellFormed, MachineSized;
    var v := AadValue(registryKey, p);
    WithinIsMachineSized(Array(p.aadIndex), STORE, 29);
    forall b: seq<byte>, n: u64 ensures Canonical(Bytes(b)) && Canonical(UInt(n)) && MachineSized(UInt(n)) {
      LeafCanonical(b, n);
      UIntSized(n);
    }
    forall b: seq<byte> | |b| <= 32 ensures MachineSized(Bytes(b)) {
      BytesSized(b);
    }
    ArrayCanonical(v.items);
    ArraySized(v.items);
  }

  lemma UIntSized(n: u64)
    ensures MachineSized(UInt(n))
  {
  }

  lemma BytesSized(b: seq<byte>)
    requires |b| <= 32
    ensures MachineSized(Bytes(b))
  {
  }

  lemma ArraySized(items: seq<Value>)
    requires |items| <= 256 && forall i | 0 <= i < |items| :: MachineSized(items[i])
    ensures MachineSized(Array(items))
  {
  }

  // The bytes that the cipher authenticates belong to one registry key, profile id, network,
  // duplicate tag and wire index.
  lemma AadDetermines(registryKey: Bytes32, p: Profile, otherKey: Bytes32, q: Profile)
    requires ProfileWellFormed(p) && ProfileWellFormed(q)
    ensures Aad(registryKey, p).Ok?
    ensures Aad(registryKey, p) == Aad(otherKey, q) <==>
      && registryKey == otherKey
      && p.profileId == q.profileId
      && p.network == q.network
      && p.duplicateTag == q.duplicateTag
      && p.aadIndex == q.aadIndex
  {
    hide Canonical, Encodable, Normalize, Wire, MachineSized, ProfileWellFormed;
    var (v, w) := (AadValue(registryKey, p), AadValue(otherKey, q));
    AadCanonical(registryKey, p);
    AadCanonical(otherKey, q);
    CanonicalIsNormal(v);
    CanonicalIsNormal(w);
    if Wire(v) == Wire(w) {
      WireIsPrefixFree(v, w, [], []);
      assert v.items[2] == w.items[2] && v.items[3] == w.items[3] && v.items[4] == w.items[4];
      assert v.items[5] == w.items[5] && v.items[9] == w.items[9];
    }
  }

  // ----- adding and exporting

  lemma {:induction false} FindKeyFinds(keys: seq<KeyRecord>, j: nat)
    requires StrictlySorted(KeyIdLess, keys) && j < |keys|
    ensures FindKey(keys, keys[j].keyId) == Ok(keys[j].privateKey)
  {
    hide Less;
    if j > 0 {
      assert KeyIdLess(keys[0], keys[j]);
      LessAsymmetric(keys[0].keyId, keys[j].keyId);
      forall p, q | 0 <= p < q < |keys[1..]| ensures KeyIdLess(keys[1..][p], keys[1..][q]) {
        assert KeyIdLess(keys[p + 1], keys[q + 1]);
      }
      FindKeyFinds(keys[1..], j - 1);
    }
  }

  lemma AddedIsFound(payload: Payload, key: KeyRecord)
    requires PayloadWellFormed(Ordered(payload)) && key in payload.keys
    ensures FindKey(Ordered(payload).keys, key.keyId) == Ok(key.privateKey)
  {
    hide KeyWellFormed, Extension, Sort, FindKey;
    var sorted := Sort(KeyIdLess, payload.keys);
    SortPermutes(KeyIdLess, payload.keys);
    PermutationMembers(sorted, payload.keys);
    var j :| 0 <= j < |sorted| && sorted[j] == key;
    FindKeyFinds(sorted, j);
  }

  // A key that was added is exported unchanged, under its id and the profile's password.
  lemma AddedKeyIsExported(
    c: Crypto, s: Store, i: nat, payload: Payload, chain: Chain, privateKey: Bytes32, origin: Origin,
    password: seq<byte>, random: Random, m: Mutation<SoftwareKeyInfo>)
    requires StoreWellFormed(s) && i < |s.profiles|
    requires OpenProfile(c, s.registryKey, s.profiles[i], password) == Ok(payload)
    requires ValidPrivateKey(privateKey)
    requires AddKey(c, s, i, payload, chain, privateKey, origin, password, random) == Ok(m)
    requires DecodeStore(m.store).Ok?
    ensures ExportPrivateKey(c, m.store, s.profiles[i].profileId, m.value.keyId, password) == Ok(privateKey)
  {
    hide OpenProfile, EncodePayload, EncodeStore, AddKey, StoreWellFormed, ValidPrivateKey, Ordered, DecodeStore,
      OnlyKeysChanged, FindKey, Authenticate;
    var t := AddedKey(c, s, i, payload, chain, privateKey, origin, password, random, m);
    AddedKeyIsReadable(c, s, i, payload, chain, privateKey, origin, password, random, m);
    var key := NewKey(m.value.keyId, chain, privateKey, origin);
    var updated := payload.(keys := payload.keys + [key]);
    OrderedEncoding(updated);
    KeysChangedIds(s, t, i, Ordered(updated).keys);
    OpenedBelongs(c, s.registryKey, t.profiles[i], password, Ordered(updated));
    AddedIsFound(updated, key);
  }

  lemma ImportThenExport(
    c: Crypto, store: seq<byte>, profileId: Bytes16, password: seq<byte>, chain: Chain, privateKey: seq<byte>,
    random: Random, m: Mutation<SoftwareKeyInfo>)
    requires ImportSoftwareKey(c, store, profileId, password, chain, privateKey, random) == Ok(m)
    requires DecodeStore(m.store).Ok?
    ensures ExportPrivateKey(c, m.store, profileId, m.value.keyId, password) == Ok(privateKey)
  {
    hide DecodeStore, AddKey, OpenProfile, StoreWellFormed, ValidPrivateKey, EncodeStore, ExportPrivateKey, ProfileIndex;
    var s := DecodeStore(store).value;
    var i := ProfileIndex(s.profiles, profileId).value;
    var payload := OpenProfile(c, s.registryKey, s.profiles[i], password).value;
    StoreCodec(store, s);
    ValidKeyHas32(privateKey);
    AddedKeyIsExported(c, s, i, payload, chain, privateKey, Imported, password, random, m);
  }

  // A key that a profile has is refused on the same chain, however it comes again.
  lemma ImportOnlyOnce(
    c: Crypto, store: seq<byte>, profileId: Bytes16, password: seq<byte>, chain: Chain, privateKey: seq<byte>,
    random: Random, m: Mutation<SoftwareKeyInfo>, later: Random)
    requires ImportSoftwareKey(c, store, profileId, password, chain, privateKey, random) == Ok(m)
    requires DecodeStore(m.store).Ok?
    ensures ImportSoftwareKey(c, m.store, profileId, password, chain, privateKey, later) == Err(DuplicateSoftwareKey)
  {
    hide DecodeStore, Reencrypt, OpenProfile, StoreWellFormed, ValidPrivateKey, EncodeStore, ProfileIndex, Ordered,
      FreshId, OnlyKeysChanged, HasKey, Written, Authenticate;
    var s := DecodeStore(store).value;
    var i := ProfileIndex(s.profiles, profileId).value;
    AuthenticateOpens(c, s, profileId, password);
    var payload := Authenticate(c, s, profileId, password).value;
    StoreCodec(store, s);
    ValidKeyHas32(privateKey);
    var t := AddedKey(c, s, i, payload, chain, privateKey, Imported, password, random, m);
    AddedKeyIsReadable(c, s, i, payload, chain, privateKey, Imported, password, random, m);
    var key := NewKey(m.value.keyId, chain, privateKey, Imported);
    var updated := payload.(keys := payload.keys + [key]);
    OrderedEncoding(updated);
    WrittenMeans(c, m.store, t, profileId, password, Ordered(updated));
    OrderedMembers(updated);
    NowHasKey(Ordered(updated).keys, key);
    AuthenticateOpens(c, t, profileId, password);
  }

  lemma AuthenticateOpens(c: Crypto, s: Store, profileId: Bytes16, password: seq<byte>)
    requires Authenticate(c, s, profileId, password).Ok?
    ensures ProfileIndex(s.profiles, profileId).Ok?
    ensures OpenProfile(c, s.registryKey, s.profiles[ProfileIndex(s.profiles, profileId).value], password) ==
      Authenticate(c, s, profileId, password)
  {
    hide OpenProfile, ProfileIndex;
  }

  lemma NowHasKey(keys: seq<KeyRecord>, key: KeyRecord)
    requires key in keys
    ensures HasKey(keys, key.chain, key.privateKey)
  {
    var j :| 0 <= j < |keys| && keys[j] == key;
  }

  lemma ValidKeyHas32(key: seq<byte>)
    requires ValidPrivateKey(key)
    ensures |key| == 32
  {
  }

  // ----- adding and deleting

  // A strictly sorted sequence is determined by its members.
  lemma {:induction false} SortedUnique(s: seq<KeyRecord>, t: seq<KeyRecord>)
    requires StrictlySorted(KeyIdLess, s) && StrictlySorted(KeyIdLess, t)
    requires forall x :: x in s <==> x in t
    ensures s == t
  {
    hide KeyIdLess;
    if s == [] {
      FirstIsMember(t);
    } else {
      assert s[0] in t;
      var a, b := s[|s| - 1], t[|t| - 1];
      LastIsGreatest(s, b);
      LastIsGreatest(t, a);
      SortedFront(s);
      SortedFront(t);
      assert a in s && b in t;
      assert a == b;
      var front, other := s[..|s| - 1], t[..|t| - 1];
      forall x ensures x in front <==> x in other {
        assert x in s <==> x in t;
      }
      SortedUnique(front, other);
      assert s == front + [a] && t == other + [b];
    }
  }

  lemma FirstIsMember(t: seq<KeyRecord>)
    ensures t != [] ==> exists x :: x in t
  {
    if t != [] {
      assert t[0] in t;
    }
  }

  lemma LastIsGreatest(s: seq<KeyRecord>, x: KeyRecord)
    requires StrictlySorted(KeyIdLess, s) && x in s
    ensures s != [] && (x == s[|s| - 1] || KeyIdLess(x, s[|s| - 1]))
    ensures KeyIdLess(x, s[|s| - 1]) ==> !KeyIdLess(s[|s| - 1], x)
  {
    hide Less;
    if KeyIdLess(x, s[|s| - 1]) {
      LessAsymmetric(x.keyId, s[|s| - 1].keyId);
    }
  }

  lemma SortedFront(s: seq<KeyRecord>)
    requires StrictlySorted(KeyIdLess, s) && s != []
    ensures StrictlySorted(KeyIdLess, s[..|s| - 1])
    ensures forall x :: x in s[..|s| - 1] <==> x in s && x != s[|s| - 1]
  {
    hide Less;
    var front, last := s[..|s| - 1], s[|s| - 1];
    assert s == front + [last];
    forall x | x in front ensures x != last {
      var j :| 0 <= j < |front| && front[j] == x;
      assert KeyIdLess(s[j], s[|s| - 1]);
      LessAsymmetric(x.keyId, last.keyId);
    }
  }

  lemma WithoutAdded(keys: seq<KeyRecord>, key: KeyRecord)
    requires KeysWellFormed(keys) && key.keyId !in KeyIds(keys) && KeyWellFormed(key)
    ensures WithoutKey(Sort(KeyIdLess, keys + [key]), key.keyId) == keys
  {
    hide KeyWellFormed, Less, Sort, WithoutKey, KeyIds;
    var sorted := Sort(KeyIdLess, keys + [key]);
    AppendedKeyWellFormed(keys, key);
    SortPermutes(KeyIdLess, keys + [key]);
    PermutationMembers(sorted, keys + [key]);
    WithoutKeyKeeps(sorted, key.keyId);
    forall k | k in keys ensures k.keyId != key.keyId {
      NotAmong(keys, key.keyId);
    }
    SortedUnique(WithoutKey(sorted, key.keyId), keys);
  }

  // A wire index is rebuilt from its entries and their extension fields.
  lemma IndexRebuilt(p: Profile, values: seq<Value>)
    requires ProfileWellFormed(p) && IdsAscending(values)
    requires forall i | 0 <= i < |p.index| :: UnknownOf(values, p.index[i].keyId) == UnknownOf(p.aadIndex, p.index[i].keyId)
    ensures MergeIndex(p.index, values) == p.aadIndex
  {
    hide Admissible, Extension, ParseIndexEntry, ParseIndex, KdfWellFormed, CipherWellFormed, UnknownOf, MergeIndex,
      IdsAscending, UnknownFields, Less;
    IndexParsed(p.aadIndex, p.index);
    MergeIsLookup(p.index, values);
    forall i | 0 <= i < |p.index| ensures MergeIndex(p.index, values)[i] == p.aadIndex[i] {
      ArrayAdmissible(p.aadIndex, STORE, 29);
      IndexEntryRead(p.aadIndex[i], p.index[i]);
      LookupInMerge(p.aadIndex, p.index, i);
    }
  }

  // Deleting the key just added gives back the Store as it was, but for the nonce, ciphertext
  // and tag of its profile; and the profile opens to the payload it had.
  lemma DeleteUndoesAddKey(
    c: Crypto, s: Store, i: nat, payload: Payload, chain: Chain, privateKey: Bytes32, origin: Origin,
    password: seq<byte>, random: Random, m: Mutation<SoftwareKeyInfo>, again: Random, d: Mutation<()>)
    returns (u: Store)
    requires StoreWellFormed(s) && i < |s.profiles|
    requires OpenProfile(c, s.registryKey, s.profiles[i], password) == Ok(payload)
    requires ValidPrivateKey(privateKey)
    requires AddKey(c, s, i, payload, chain, privateKey, origin, password, random) == Ok(m)
    requires DeleteSoftwareKey(c, m.store, s.profiles[i].profileId, m.value.keyId, password, again) == Ok(d)
    ensures |u.profiles| == |s.profiles|
    ensures u == s.(profiles := s.profiles[i := s.profiles[i].(cipher := u.profiles[i].cipher)])
    ensures u.profiles[i].cipher.unknown == s.profiles[i].cipher.unknown
    ensures DecodeStore(d.store) == Ok(u)
    ensures OpenProfile(c, u.registryKey, u.profiles[i], password) == Ok(payload)
  {
    hide OpenProfile, EncodePayload, EncodeStore, AddKey, StoreWellFormed, ValidPrivateKey, DecodeStore, DeleteSoftwareKey,
      OnlyKeysChanged, Authenticate, Ordered, WithoutKey, Written;
    var t := AddedKey(c, s, i, payload, chain, privateKey, origin, password, random, m);
    DeleteReads(c, m.store, s.profiles[i].profileId, m.value.keyId, password, again);
    AddedKeyIsReadable(c, s, i, payload, chain, privateKey, origin, password, random, m);
    var key := NewKey(m.value.keyId, chain, privateKey, origin);
    var updated := payload.(keys := payload.keys + [key]);
    OrderedEncoding(updated);
    WrittenMeans(c, m.store, t, s.profiles[i].profileId, password, Ordered(updated));
    var k, read, v := DeletedKey(c, m.store, t, s.profiles[i].profileId, m.value.keyId, password, again, d);
    u := v;
    KeysChangedIds(s, t, i, Ordered(updated).keys);
    TableIds(t, i, k, s.profiles[i].profileId);
    WrittenMeans(c, d.store, u, s.profiles[i].profileId, password, read.(keys := WithoutKey(read.keys, m.value.keyId)));
    RestoredPayload(c, s, i, password, payload, key);
    OrderedMembers(updated);
    ProfileRestored(s, t, u, i, Ordered(updated).keys, payload, c, password);
  }

  lemma OrderedMembers(payload: Payload)
    ensures forall k :: k in Ordered(payload).keys <==> k in payload.keys
  {
    SortPermutes(KeyIdLess, payload.keys);
    PermutationMembers(Sort(KeyIdLess, payload.keys), payload.keys);
  }

  lemma DeleteReads(c: Crypto, store: seq<byte>, profileId: Bytes16, keyId: Bytes16, password: seq<byte>, random: Random)
    requires DeleteSoftwareKey(c, store, profileId, keyId, password, random).Ok?
    ensures DecodeStore(store).Ok?
  {
    hide DecodeStore, Authenticate, ProfileIndex, Reencrypt, EncodeStore, WithoutKey;
  }

  lemma WrittenMeans(c: Crypto, bytes: seq<byte>, t: Store, profileId: Bytes16, password: seq<byte>, payload: Payload)
    requires Written(c, bytes, t, profileId, password, payload)
    ensures DecodeStore(bytes) == Ok(t) && Authenticate(c, t, profileId, password) == Ok(payload)
  {
  }

  lemma TableIds(t: Store, i: nat, k: nat, profileId: Bytes16)
    requires StoreWellFormed(t) && i < |t.profiles| && t.profiles[i].profileId == profileId
    requires ProfileIndex(t.profiles, profileId) == Ok(k)
    ensures k == i
  {
    hide ProfileWellFormed, Extension, ProfileIndex;
    ProfileIndexFinds(t.profiles, i);
  }

  lemma RestoredPayload(c: Crypto, s: Store, i: nat, password: seq<byte>, payload: Payload, key: KeyRecord)
    requires i < |s.profiles| && OpenProfile(c, s.registryKey, s.profiles[i], password) == Ok(payload)
    requires key.keyId !in KeyIds(payload.keys) && key.unknown == [] && key.originUnknown == []
    ensures var updated := Ordered(payload.(keys := payload.keys + [key]));
      updated.(keys := WithoutKey(updated.keys, key.keyId)) == payload
  {
    hide OpenProfile, WithoutKey, Sort, KeyIds, KeyWellFormed, Extension;
    OpenedBelongs(c, s.registryKey, s.profiles[i], password, payload);
    NewKeyWellFormed(key);
    WithoutAdded(payload.keys, key);
  }

  lemma ProfileRestored(s: Store, t: Store, u: Store, i: nat, keys: seq<KeyRecord>, payload: Payload, c: Crypto,
    password: seq<byte>)
    requires StoreWellFormed(s) && StoreWellFormed(t) && OnlyKeysChanged(s, t, i, keys)
    requires OnlyKeysChanged(t, u, i, payload.keys)
    requires t.profiles[i].kdf == s.profiles[i].kdf && u.profiles[i].kdf == t.profiles[i].kdf
    requires OpenProfile(c, s.registryKey, s.profiles[i], password) == Ok(payload)
    requires forall k | k in payload.keys :: k in keys
    ensures |u.profiles| == |s.profiles|
    ensures u == s.(profiles := s.profiles[i := s.profiles[i].(cipher := u.profiles[i].cipher)])
    ensures u.profiles[i].cipher.unknown == s.profiles[i].cipher.unknown
  {
    hide OpenProfile, ProfileWellFormed, Extension, UnknownOf, MergeIndex, IndexOfKeys, Less;
    var (p, q, r) := (s.profiles[i], t.profiles[i], u.profiles[i]);
    OpenedBelongs(c, s.registryKey, p, password, payload);
    IndexReturns(p, q, payload.keys, keys);
    assert r == p.(cipher := r.cipher);
    assert u.profiles == s.profiles[i := r];
  }

  lemma IndexReturns(p: Profile, q: Profile, kept: seq<KeyRecord>, keys: seq<KeyRecord>)
    requires ProfileWellFormed(p) && ProfileWellFormed(q) && p.index == IndexOfKeys(kept)
    requires forall k | k in kept :: k in keys
    requires forall j | 0 <= j < |keys| :: UnknownOf(q.aadIndex, keys[j].keyId) == UnknownOf(p.aadIndex, keys[j].keyId)
    ensures MergeIndex(p.index, q.aadIndex) == p.aadIndex
  {
    hide UnknownOf, MergeIndex, Less, Admissible, Extension, KdfWellFormed, CipherWellFormed, ParseIndex;
    ParsedIdsAscend(q.aadIndex, q.index);
    forall j | 0 <= j < |p.index|
      ensures UnknownOf(q.aadIndex, p.index[j].keyId) == UnknownOf(p.aadIndex, p.index[j].keyId)
    {
      assert kept[j] in keys;
    }
    IndexRebuilt(p, q.aadIndex);
  }
}
