// Sealing a payload into a profile, and what opening the sealed profile gives back.
module SealTheory {
  import opened Wrappers
  import opened Bytes
  import opened Sorting
  import opened Cbor
  import opened WalletTypes
  import opened WalletCrypto
  import opened StoreFormat
  import opened StoreFormatTheory
  import opened PayloadTheory
  import opened StoreOps
  import opened IndexTheory

  // The payload as it is stored: its keys in the order of their ids.
  function Ordered(payload: Payload): Payload {
    payload.(keys := Sort(KeyIdLess, payload.keys))
  }

  lemma OrderedEncoding(payload: Payload)
    ensures EncodePayload(Ordered(payload)) == EncodePayload(payload)
  {
    LessOrder();
    SortSorts(KeyIdLess, payload.keys);
    SortKeepsSorted(KeyIdLess, Sort(KeyIdLess, payload.keys));
  }

  lemma OrderedIsSame(payload: Payload)
    requires StrictlySorted(KeyIdLess, payload.keys)
    ensures Ordered(payload) == payload
  {
    SortKeepsKeys(payload.keys);
  }

  ghost predicate KeysValid(keys: seq<KeyRecord>) {
    forall i | 0 <= i < |keys| :: ValidPrivateKey(keys[i].privateKey)
  }

  predicate KeyValid(key: KeyRecord) {
    ValidPrivateKey(key.privateKey)
  }

  lemma OrderedKeysValid(keys: seq<KeyRecord>)
    requires KeysValid(keys)
    ensures KeysValid(Sort(KeyIdLess, keys))
  {
    hide ValidPrivateKey;
    SortPermutes(KeyIdLess, keys);
    assert forall i | 0 <= i < |keys| :: KeyValid(keys[i]);
    AllUnderPermutation(KeyValid, keys, Sort(KeyIdLess, keys));
    assert forall i | 0 <= i < |keys| :: KeyValid(Sort(KeyIdLess, keys)[i]);
  }

  // What a payload must satisfy for `p`, once listed in the index of `p`, to be read back.
  ghost predicate Belongs(c: Crypto, registryKey: Bytes32, p: Profile, payload: Payload) {
    && PayloadWellFormed(Ordered(payload))
    && KeysValid(payload.keys)
    && DuplicateTag(c, registryKey, p.network, payload.entropy) == p.duplicateTag
  }

  // Sealing changes nonce, ciphertext and tag only, and opening under the same password
  // gives the parse of the sealed bytes.
  lemma SealOpens(
    c: Crypto, registryKey: Bytes32, p: Profile, payload: Payload, password: seq<byte>, drawn: Option<Bytes12>,
    q: Profile)
    requires SealProfile(c, registryKey, p, payload, password, drawn) == Ok(q)
    ensures q == p.(cipher := q.cipher) && q.cipher.unknown == p.cipher.unknown
    ensures drawn == Some(q.cipher.nonce)
    ensures ValidPassword(password) && EncodePayload(payload).Ok?
    ensures |q.cipher.ciphertext| == |EncodePayload(payload).value|
    ensures OpenProfile(c, registryKey, q, password) ==
      match ParsePayload(EncodePayload(payload).value)
      case Ok(read) => if ValidateAuthenticated(c, registryKey, q, read) then Ok(read) else Err(InvalidStore)
      case Err(e) => Err(e)
  {
    hide EncodePayload, ParsePayload, ValidateAuthenticated, Encode;
    assert AadValue(registryKey, p) == AadValue(registryKey, q);
  }

  // A payload that belongs to the profile and is listed in its index is read back in order,
  // exactly when its encoding has at most 1 MiB.
  lemma SealAuthenticates(
    c: Crypto, registryKey: Bytes32, p: Profile, payload: Payload, password: seq<byte>, drawn: Option<Bytes12>,
    q: Profile)
    requires SealProfile(c, registryKey, p, payload, password, drawn) == Ok(q)
    requires Belongs(c, registryKey, p, payload) && p.index == IndexFromPayload(payload)
    ensures OpenProfile(c, registryKey, q, password) ==
      if |q.cipher.ciphertext| <= MAX_CIPHERTEXT then Ok(Ordered(payload)) else Err(InvalidStore)
  {
    hide SealProfile, OpenProfile, EncodePayload, ParsePayload, PayloadWellFormed, IndexOfKeys, Sort;
    SealOpens(c, registryKey, p, payload, password, drawn, q);
    OrderedEncoding(payload);
    IndexOfSortedKeys(payload.keys);
    OrderedKeysValid(payload.keys);
    SealedParse(payload);
  }

  lemma SealedParse(payload: Payload)
    requires PayloadWellFormed(Ordered(payload)) && EncodePayload(payload).Ok?
    ensures var bytes := EncodePayload(payload).value;
      ParsePayload(bytes) == if |bytes| <= MAX_CIPHERTEXT then Ok(Ordered(payload)) else Err(InvalidStore)
  {
    var bytes := EncodePayload(payload).value;
    OrderedEncoding(payload);
    PayloadCodec(bytes, Ordered(payload));
  }

  // An authenticated payload is well formed, belongs to the profile, and is its index.
  lemma OpenedBelongs(c: Crypto, registryKey: Bytes32, p: Profile, password: seq<byte>, payload: Payload)
    requires OpenProfile(c, registryKey, p, password) == Ok(payload)
    ensures Belongs(c, registryKey, p, payload) && PayloadWellFormed(payload) && Ordered(payload) == payload
    ensures p.index == IndexOfKeys(payload.keys)
    ensures EncodePayload(payload).Ok? && |EncodePayload(payload).value| <= MAX_CIPHERTEXT
    ensures |EncodePayload(payload).value| == |p.cipher.ciphertext|
  {
    hide Aad, EncodePayload, ParsePayload, Sort, KeyWellFormed;
    var aad := Aad(registryKey, p).value;
    var key := DeriveEncryptionKey(c, password, p.kdf.salt).value;
    var plaintext := c.unseal(key, p.cipher.nonce, p.cipher.tag, aad, p.cipher.ciphertext).value;
    PayloadCodec(plaintext, payload);
    OrderedIsSame(payload);
  }

  // ----- the index rebuilt by a mutation

  lemma RelistedEntry(index: seq<IndexEntry>, p: Profile, i: nat)
    requires ProfileWellFormed(p) && StrictlySorted(IndexLess, index) && i < |index|
    ensures var v := MergeIndex(index, p.aadIndex)[i];
      && v == Map(IndexKnown(index[i]) + UnknownOf(p.aadIndex, index[i].keyId))
      && Admissible(v, STORE, 28)
      && ParseIndexEntry(v) == Ok(index[i])
      && UnknownFields(v.entries, 2) == UnknownOf(p.aadIndex, index[i].keyId)
  {
    hide Admissible, Extension, ParseIndexEntry, IndexKnown, UnknownFields, UnknownOf, MergeIndex, ParseIndex,
      KdfWellFormed, CipherWellFormed;
    ParsedIdsAscend(p.aadIndex, p.index);
    MergeIsLookup(index, p.aadIndex);
    ArrayAdmissible(p.aadIndex, STORE, 29);
    UnknownOfIsExtension(p.aadIndex, p.index, index[i].keyId);
    IndexEntryBuilt(index[i], UnknownOf(p.aadIndex, index[i].keyId));
  }

  lemma {:induction false} UnknownOfIsExtension(values: seq<Value>, index: seq<IndexEntry>, keyId: Bytes16)
    requires ParseIndex(values) == Ok(index)
    requires forall i | 0 <= i < |values| :: Admissible(values[i], STORE, 28)
    ensures Extension(UnknownOf(values, keyId), 2, STORE, 27)
  {
    hide Admissible, ParseIndexEntry, ParseIndex, UnknownFields;
    IndexParsed(values, index);
    UnknownOfListed(values, index, keyId);
  }

  lemma {:induction false} UnknownOfListed(values: seq<Value>, index: seq<IndexEntry>, keyId: Bytes16)
    requires |values| == |index|
    requires forall i | 0 <= i < |values| :: Admissible(values[i], STORE, 28) && ParseIndexEntry(values[i]) == Ok(index[i])
    ensures Extension(UnknownOf(values, keyId), 2, STORE, 27)
  {
    hide Admissible, ParseIndexEntry, UnknownFields, WireKeyId;
    if values != [] {
      IndexEntryRead(values[0], index[0]);
      UnknownOfListed(values[1..], index[1..], keyId);
    }
  }

  lemma RelistedWellFormed(p: Profile, index: seq<IndexEntry>, salt: Bytes16)
    requires ProfileWellFormed(p) && StrictlySorted(IndexLess, index) && |index| <= MAX_KEYS
    ensures ProfileWellFormed(Relisted(p, index, salt))
  {
    hide Admissible, ParseIndexEntry, MergeIndex, CipherWellFormed, ParseIndex, Extension;
    var values := MergeIndex(index, p.aadIndex);
    forall i | 0 <= i < |index|
      ensures Admissible(values[i], STORE, 28) && ParseIndexEntry(values[i]) == Ok(index[i])
    {
      RelistedEntry(index, p, i);
    }
    IndexBuilt(values, index);
    ArrayAdmissible(values, STORE, 29);
  }

  // The extension fields of every listed key survive.
  lemma RelistedKeepsUnknown(p: Profile, index: seq<IndexEntry>, keyId: Bytes16)
    requires ProfileWellFormed(p) && StrictlySorted(IndexLess, index) && |index| <= MAX_KEYS
    requires exists i | 0 <= i < |index| :: index[i].keyId == keyId
    ensures UnknownOf(MergeIndex(index, p.aadIndex), keyId) == UnknownOf(p.aadIndex, keyId)
  {
    hide MergeIndex, UnknownOf, ProfileWellFormed, ParseIndex, UnknownFields, Less;
    var i :| 0 <= i < |index| && index[i].keyId == keyId;
    RelistedParses(p, index);
    RelistedEntry(index, p, i);
    LookupInMerge(MergeIndex(index, p.aadIndex), index, i);
  }

  lemma RelistedParses(p: Profile, index: seq<IndexEntry>)
    requires ProfileWellFormed(p) && StrictlySorted(IndexLess, index) && |index| <= MAX_KEYS
    ensures ParseIndex(MergeIndex(index, p.aadIndex)) == Ok(index)
  {
    RelistedWellFormed(p, index, p.kdf.salt);
  }

  // ----- re-encryption of a profile

  lemma ReencryptedProfile(
    c: Crypto, registryKey: Bytes32, p: Profile, payload: Payload, password: seq<byte>, changePassword: bool,
    random: Random, q: Profile)
    requires ProfileWellFormed(p) && Belongs(c, registryKey, p, payload)
    requires ReencryptProfile(c, registryKey, p, payload, password, changePassword, random) == Ok(q)
    ensures q.profileId == p.profileId && q.network == p.network && q.duplicateTag == p.duplicateTag
    ensures q.unknown == p.unknown && q.kdf.unknown == p.kdf.unknown && q.cipher.unknown == p.cipher.unknown
    ensures if changePassword then random.salt == Some(q.kdf.salt) else q.kdf == p.kdf
    ensures random.nonce == Some(q.cipher.nonce)
    ensures q.index == IndexOfKeys(Ordered(payload).keys)
    ensures q.aadIndex == MergeIndex(q.index, p.aadIndex)
    ensures EncodePayload(payload).Ok? && |q.cipher.ciphertext| == |EncodePayload(payload).value|
    ensures ProfileWellFormed(q) <==> |q.cipher.ciphertext| <= MAX_CIPHERTEXT
    ensures OpenProfile(c, registryKey, q, password) ==
      if |q.cipher.ciphertext| <= MAX_CIPHERTEXT then Ok(Ordered(payload)) else Err(InvalidStore)
  {
    hide SealProfile, OpenProfile, EncodePayload, ParsePayload, MergeIndex, Admissible, ParseIndex, Extension, Sort,
      IndexOfKeys, KeyWellFormed, ValidPrivateKey, DuplicateTag;
    var index := IndexFromPayload(payload);
    var salt := if changePassword then random.salt.value else p.kdf.salt;
    var listed := Relisted(p, index, salt);
    IndexOfSortedKeys(payload.keys);
    IndexOfSorted(Ordered(payload).keys);
    RelistedWellFormed(p, index, salt);
    SealOpens(c, registryKey, listed, payload, password, random.nonce, q);
    SealAuthenticates(c, registryKey, listed, payload, password, random.nonce, q);
  }
}
