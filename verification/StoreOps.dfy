// The operations of the wallet, each from Store bytes to replacement bytes or an error.
module StoreOps {
  import opened Wrappers
  import opened Bytes
  import opened Sorting
  import opened Cbor
  import opened WalletTypes
  import opened WalletCrypto
  import opened StoreFormat

  // What the random source returns to one call, in order; a missing draw is its failure.
  datatype Random = Random(
    ids: seq<Bytes16>,
    salt: Option<Bytes16>,
    nonce: Option<Bytes12>,
    privateKeys: seq<Bytes32>,
    entropy: Option<Bytes32>)

  datatype Mutation<T> = Mutation(store: seq<byte>, value: T)

  datatype ProfileInfo = ProfileInfo(profileId: Bytes16, network: Network, keyCount: nat)

  datatype SoftwareKeyInfo = SoftwareKeyInfo(keyId: Bytes16, chain: Chain, origin: Origin)

  function Drawn<T>(o: Option<T>): Parse<T> {
    if o.Some? then Ok(o.value) else Err(RandomSourceFailure)
  }

  // Draws until an id is not taken.
  function FreshId(ids: seq<Bytes16>, taken: seq<Bytes16>): (r: Parse<Bytes16>)
    ensures r.Ok? ==> r.value !in taken
  {
    if ids == [] then Err(RandomSourceFailure)
    else if ids[0] !in taken then Ok(ids[0])
    else FreshId(ids[1..], taken)
  }

  // Draws until a candidate is a valid private key.
  function GeneratePrivateKey(candidates: seq<Bytes32>): (r: Parse<Bytes32>)
    ensures r.Ok? ==> ValidPrivateKey(r.value)
  {
    if candidates == [] then Err(RandomSourceFailure)
    else if ValidPrivateKey(candidates[0]) then Ok(candidates[0])
    else GeneratePrivateKey(candidates[1..])
  }

  function ProfileIds(profiles: seq<Profile>): (r: seq<Bytes16>)
    ensures |r| == |profiles| && forall i | 0 <= i < |profiles| :: r[i] == profiles[i].profileId
  {
    if profiles == [] then [] else ProfileIds(profiles[..|profiles| - 1]) + [profiles[|profiles| - 1].profileId]
  }

  function KeyIds(keys: seq<KeyRecord>): (r: seq<Bytes16>)
    ensures |r| == |keys| && forall i | 0 <= i < |keys| :: r[i] == keys[i].keyId
  {
    if keys == [] then [] else KeyIds(keys[..|keys| - 1]) + [keys[|keys| - 1].keyId]
  }

  function ProfileIndex(profiles: seq<Profile>, profileId: Bytes16): (r: Parse<nat>)
    ensures r.Ok? ==> r.value < |profiles| && profiles[r.value].profileId == profileId
  {
    if profiles == [] then Err(ProfileNotFound)
    else if profiles[0].profileId == profileId then Ok(0)
    else
      var i :- ProfileIndex(profiles[1..], profileId);
      Ok(i + 1)
  }

  // ----- the plaintext index

  predicate IndexLess(a: IndexEntry, b: IndexEntry) {
    Less(a.keyId, b.keyId)
  }

  function IndexOfKey(key: KeyRecord): IndexEntry {
    IndexEntry(key.keyId, key.chain)
  }

  function IndexOfKeys(keys: seq<KeyRecord>): (r: seq<IndexEntry>)
    ensures |r| == |keys| && forall i | 0 <= i < |keys| :: r[i] == IndexOfKey(keys[i])
  {
    if keys == [] then [] else IndexOfKeys(keys[..|keys| - 1]) + [IndexOfKey(keys[|keys| - 1])]
  }

  function IndexFromPayload(payload: Payload): seq<IndexEntry> {
    Sort(IndexLess, IndexOfKeys(payload.keys))
  }

  function WireKeyId(v: Value): Option<seq<byte>> {
    if v.Map? then FixedBytes(MapValue(v.entries, 0), 16) else None
  }

  // The cursor's movement for one entry: over values without a key id or with a smaller one.
  function SkipSmaller(existing: seq<Value>, keyId: Bytes16): seq<Value> {
    if existing == [] then []
    else
      var id := WireKeyId(existing[0]);
      if id.None? || Less(id.value, keyId) then SkipSmaller(existing[1..], keyId) else existing
  }

  function UnknownAtCursor(existing: seq<Value>, keyId: Bytes16): seq<Entry> {
    if existing != [] && WireKeyId(existing[0]) == Some(keyId) then UnknownFields(existing[0].entries, 2) else []
  }

  // `index_values_from_payload`: one pass over the new index and the existing wire values.
  function MergeIndex(index: seq<IndexEntry>, existing: seq<Value>): (r: seq<Value>)
    ensures |r| == |index|
  {
    if index == [] then []
    else
      var rest := SkipSmaller(existing, index[0].keyId);
      [Map(IndexKnown(index[0]) + UnknownAtCursor(rest, index[0].keyId))] + MergeIndex(index[1..], rest)
  }

  // ----- authenticated encryption of a profile

  function AadValue(registryKey: Bytes32, p: Profile): Value {
    Array([
      Bytes(MAGIC), UInt(STORE_VERSION), Bytes(registryKey), Bytes(p.profileId), UInt(p.network.Wire()),
      Bytes(p.duplicateTag), UInt(PROFILE_SCHEMA_VERSION), UInt(KDF_ALGORITHM), UInt(CIPHER_ALGORITHM),
      Array(p.aadIndex)])
  }

  function Aad(registryKey: Bytes32, p: Profile): Parse<seq<byte>> {
    match Encode(AadValue(registryKey, p))
    case Ok(bytes) => Ok(bytes)
    case Err(_) => Err(SerializationFailure)
  }

  function OpenProfile(c: Crypto, registryKey: Bytes32, p: Profile, password: seq<byte>): Parse<Payload> {
    var aad :- Aad(registryKey, p);
    var key :- DeriveEncryptionKey(c, password, p.kdf.salt);
    var plaintext := c.unseal(key, p.cipher.nonce, p.cipher.tag, aad, p.cipher.ciphertext);
    if plaintext.None? then Err(AuthenticationFailed) else
    var payload :- ParsePayload(plaintext.value);
    if ValidateAuthenticated(c, registryKey, p, payload) then Ok(payload) else Err(InvalidStore)
  }

  predicate ValidateAuthenticated(c: Crypto, registryKey: Bytes32, p: Profile, payload: Payload) {
    && DuplicateTag(c, registryKey, p.network, payload.entropy) == p.duplicateTag
    && p.index == IndexOfKeys(payload.keys)
    && forall i | 0 <= i < |payload.keys| :: ValidPrivateKey(payload.keys[i].privateKey)
  }

  function Authenticate(c: Crypto, s: Store, profileId: Bytes16, password: seq<byte>): Parse<Payload> {
    var i :- ProfileIndex(s.profiles, profileId);
    OpenProfile(c, s.registryKey, s.profiles[i], password)
  }

  // `p` with the payload encrypted under its current salt and the given nonce.
  function SealProfile(c: Crypto, registryKey: Bytes32, p: Profile, payload: Payload, password: seq<byte>,
    drawn: Option<Bytes12>): Parse<Profile>
  {
    var key :- DeriveEncryptionKey(c, password, p.kdf.salt);
    var nonce :- Drawn(drawn);
    var aad :- Aad(registryKey, p);
    var bytes :- EncodePayload(payload);
    Ok(WithSealed(p, nonce, c.seal(key, nonce, aad, bytes)))
  }

  function WithSealed(p: Profile, nonce: Bytes12, box: Sealed): Profile {
    p.(cipher := Cipher(nonce, box.ciphertext, box.tag, p.cipher.unknown))
  }

  // `reencrypt_profile`, for the profile it changes.
  function ReencryptProfile(c: Crypto, registryKey: Bytes32, p: Profile, payload: Payload, password: seq<byte>,
    changePassword: bool, random: Random): Parse<Profile>
  {
    var salt :- if changePassword then Drawn(random.salt) else Ok(p.kdf.salt);
    SealProfile(c, registryKey, Relisted(p, IndexFromPayload(payload), salt), payload, password, random.nonce)
  }

  // `p` with a new index, its extension fields carried over, and a KDF salt.
  function Relisted(p: Profile, index: seq<IndexEntry>, salt: Bytes16): Profile {
    p.(index := index, aadIndex := MergeIndex(index, p.aadIndex), kdf := Kdf(salt, p.kdf.unknown))
  }

  function Reencrypt(c: Crypto, s: Store, i: nat, payload: Payload, password: seq<byte>, changePassword: bool,
    random: Random): Parse<Store>
    requires i < |s.profiles|
  {
    var p :- ReencryptProfile(c, s.registryKey, s.profiles[i], payload, password, changePassword, random);
    Ok(s.(profiles := s.profiles[i := p]))
  }

  function NewEncryptedProfile(c: Crypto, registryKey: Bytes32, profileId: Bytes16, network: Network,
    duplicateTag: Bytes32, payload: Payload, password: seq<byte>, random: Random): Parse<Profile>
  {
    var salt :- Drawn(random.salt);
    var nonce :- Drawn(random.nonce);
    var p := UnsealedProfile(profileId, network, duplicateTag, IndexFromPayload(payload), salt, nonce);
    SealProfile(c, registryKey, p, payload, password, Some(nonce))
  }

  function UnsealedProfile(profileId: Bytes16, network: Network, duplicateTag: Bytes32, index: seq<IndexEntry>,
    salt: Bytes16, nonce: Bytes12): Profile
  {
    Profile(profileId, network, duplicateTag, Kdf(salt, []), Cipher(nonce, [], ZERO16, []), index,
      IndexToValues(index), [])
  }

  // ----- operations that add or remove profiles

  // `create_empty_store`.
  function CreateEmptyStore(registryKey: Option<Bytes32>): Parse<seq<byte>> {
    var key :- Drawn(registryKey);
    EncodeStore(Store(key, [], []))
  }

  predicate TagTaken(profiles: seq<Profile>, tag: Bytes32) {
    exists i | 0 <= i < |profiles| :: profiles[i].duplicateTag == tag
  }

  // The common end of restore and finalize.
  function AddProfile(c: Crypto, s: Store, profileId: Bytes16, network: Network, entropy: Bytes32,
    password: seq<byte>, random: Random): Parse<Mutation<ProfileInfo>>
  {
    var payload := Payload(entropy, [], []);
    var tag := DuplicateTag(c, s.registryKey, network, entropy);
    var p :- NewEncryptedProfile(c, s.registryKey, profileId, network, tag, payload, password, random);
    var bytes :- EncodeStore(s.(profiles := s.profiles + [p]));
    Ok(Mutation(bytes, ProfileInfo(p.profileId, p.network, |p.index|)))
  }

  function RestoreProfile(c: Crypto, store: seq<byte>, mnemonic: seq<byte>, password: seq<byte>, network: Network,
    random: Random): Parse<Mutation<ProfileInfo>>
  {
    if !ValidPassword(password) then Err(InvalidArgument) else
    var s :- DecodeStore(store);
    var entropy := c.parseMnemonic(mnemonic);
    if entropy.None? then Err(InvalidMnemonic) else
    if TagTaken(s.profiles, DuplicateTag(c, s.registryKey, network, entropy.value)) then Err(DuplicateProfile) else
    var profileId :- FreshId(random.ids, ProfileIds(s.profiles));
    AddProfile(c, s, profileId, network, entropy.value, password, random)
  }

  function DeleteProfile(c: Crypto, store: seq<byte>, profileId: Bytes16, password: seq<byte>): Parse<Mutation<()>> {
    var s :- DecodeStore(store);
    var i :- ProfileIndex(s.profiles, profileId);
    var _ :- Authenticate(c, s, profileId, password);
    var bytes :- EncodeStore(s.(profiles := s.profiles[..i] + s.profiles[i + 1..]));
    Ok(Mutation(bytes, ()))
  }

  // ----- operations on the keys of a profile

  predicate HasKey(keys: seq<KeyRecord>, chain: Chain, privateKey: Bytes32) {
    exists i | 0 <= i < |keys| :: keys[i].chain == chain && keys[i].privateKey == privateKey
  }

  function AddKey(c: Crypto, s: Store, i: nat, payload: Payload, chain: Chain, privateKey: Bytes32, origin: Origin,
    password: seq<byte>, random: Random): Parse<Mutation<SoftwareKeyInfo>>
    requires i < |s.profiles|
  {
    if HasKey(payload.keys, chain, privateKey) then Err(DuplicateSoftwareKey) else
    var keyId :- FreshId(random.ids, KeyIds(payload.keys));
    var updated := payload.(keys := payload.keys + [KeyRecord(keyId, chain, privateKey, origin, [], [])]);
    var s' :- Reencrypt(c, s, i, updated, password, false, random);
    var bytes :- EncodeStore(s');
    Ok(Mutation(bytes, SoftwareKeyInfo(keyId, chain, origin)))
  }

  function DeriveSoftwareKey(c: Crypto, store: seq<byte>, profileId: Bytes16, password: seq<byte>, chain: Chain,
    accountIndex: u64, random: Random): Parse<Mutation<SoftwareKeyInfo>>
  {
    var s :- DecodeStore(store);
    var i :- ProfileIndex(s.profiles, profileId);
    var payload :- Authenticate(c, s, profileId, password);
    var privateKey :- DerivePrivateKey(c, payload.entropy, chain, s.profiles[i].network, accountIndex);
    AddKey(c, s, i, payload, chain, privateKey, Derived(accountIndex), password, random)
  }

  function ImportSoftwareKey(c: Crypto, store: seq<byte>, profileId: Bytes16, password: seq<byte>, chain: Chain,
    privateKey: seq<byte>, random: Random): Parse<Mutation<SoftwareKeyInfo>>
  {
    var s :- DecodeStore(store);
    var i :- ProfileIndex(s.profiles, profileId);
    var payload :- Authenticate(c, s, profileId, password);
    if !ValidPrivateKey(privateKey) then Err(InvalidPrivateKey) else
    AddKey(c, s, i, payload, chain, privateKey, Imported, password, random)
  }

  function GenerateSoftwareKey(c: Crypto, store: seq<byte>, profileId: Bytes16, password: seq<byte>, chain: Chain,
    random: Random): Parse<Mutation<SoftwareKeyInfo>>
  {
    var s :- DecodeStore(store);
    var i :- ProfileIndex(s.profiles, profileId);
    var payload :- Authenticate(c, s, profileId, password);
    var privateKey :- GeneratePrivateKey(random.privateKeys);
    AddKey(c, s, i, payload, chain, privateKey, Generated, password, random)
  }

  function ChangeProfilePassword(c: Crypto, store: seq<byte>, profileId: Bytes16, current: seq<byte>,
    password: seq<byte>, random: Random): Parse<Mutation<()>>
  {
    if !ValidPassword(password) then Err(InvalidArgument) else
    var s :- DecodeStore(store);
    var i :- ProfileIndex(s.profiles, profileId);
    var payload :- Authenticate(c, s, profileId, current);
    var s' :- Reencrypt(c, s, i, payload, password, true, random);
    var bytes :- EncodeStore(s');
    Ok(Mutation(bytes, ()))
  }

  // `retain(|key| key.key_id != key_id)`.
  function WithoutKey(keys: seq<KeyRecord>, keyId: Bytes16): (r: seq<KeyRecord>)
    ensures |r| <= |keys|
  {
    if keys == [] then []
    else
      var front := WithoutKey(keys[..|keys| - 1], keyId);
      if keys[|keys| - 1].keyId == keyId then front else front + [keys[|keys| - 1]]
  }

  function DeleteSoftwareKey(c: Crypto, store: seq<byte>, profileId: Bytes16, keyId: Bytes16, password: seq<byte>,
    random: Random): Parse<Mutation<()>>
  {
    var s :- DecodeStore(store);
    var i :- ProfileIndex(s.profiles, profileId);
    var payload :- Authenticate(c, s, profileId, password);
    var kept := WithoutKey(payload.keys, keyId);
    if |kept| == |payload.keys| then Err(SoftwareKeyNotFound) else
    var s' :- Reencrypt(c, s, i, payload.(keys := kept), password, false, random);
    var bytes :- EncodeStore(s');
    Ok(Mutation(bytes, ()))
  }

  // `export_private_key`, after its request has been checked.
  function ExportPrivateKey(c: Crypto, store: seq<byte>, profileId: Bytes16, keyId: Bytes16, password: seq<byte>)
    : Parse<Bytes32>
  {
    var s :- DecodeStore(store);
    var payload :- Authenticate(c, s, profileId, password);
    FindKey(payload.keys, keyId)
  }

  function FindKey(keys: seq<KeyRecord>, keyId: Bytes16): Parse<Bytes32> {
    if keys == [] then Err(SoftwareKeyNotFound)
    else if keys[0].keyId == keyId then Ok(keys[0].privateKey)
    else FindKey(keys[1..], keyId)
  }
}
