// Wallet Store v1: reading the CBOR value of a Store or payload, and building it again.
module StoreFormat {
  import opened Wrappers
  import opened Bytes
  import opened Sorting
  import opened Cbor
  import opened WalletTypes

  const MAGIC: Bytes4 := [0x53, 0x4e, 0x57, 0x43]
  const STORE_VERSION: u64 := 1
  const PROFILE_SCHEMA_VERSION: u64 := 1
  const KDF_ALGORITHM: u64 := 0
  const KDF_VERSION: u64 := 0x13
  const KDF_MEMORY_KIB: u64 := 65_536
  const KDF_ITERATIONS: u64 := 3
  const KDF_PARALLELISM: u64 := 1
  const CIPHER_ALGORITHM: u64 := 0
  const MAX_STORE_BYTES: nat := 16 * 1024 * 1024
  const MAX_PROFILES: nat := 128
  const MAX_KEYS: nat := 256
  const MAX_CIPHERTEXT: nat := 1024 * 1024

  // ----- reading map fields

  function MapValue(fields: seq<Entry>, key: u64): Option<Value> {
    if fields == [] then None
    else if fields[0].key == key then Some(fields[0].value)
    else MapValue(fields[1..], key)
  }

  // `clone_unknown_fields_unchecked`: the fields beyond the known keys 0..known-1.
  function UnknownFields(fields: seq<Entry>, known: nat): seq<Entry> {
    if fields == [] then []
    else if fields[0].key < known then UnknownFields(fields[1..], known)
    else [fields[0]] + UnknownFields(fields[1..], known)
  }

  // The CBOR types an extension field may hold.
  predicate AllowedUnknown(v: Value) {
    match v
    case Array(items) => forall i | 0 <= i < |items| :: AllowedUnknown(items[i])
    case Map(entries) => forall i | 0 <= i < |entries| :: AllowedUnknown(entries[i].value)
    case _ => v.UInt? || v.Bytes? || v.Text?
  }

  predicate UnknownAllowed(fields: seq<Entry>, known: nat) {
    forall i | 0 <= i < |fields| :: fields[i].key >= known ==> AllowedUnknown(fields[i].value)
  }

  function FixedBytes(v: Option<Value>, n: nat): (r: Option<seq<byte>>)
    ensures r.Some? ==> |r.value| == n
  {
    if v.Some? && v.value.Bytes? && |v.value.bytes| == n then Some(v.value.bytes) else None
  }

  function Uint(v: Option<Value>): Option<u64> {
    if v.Some? && v.value.UInt? then Some(v.value.n) else None
  }

  function ParseNetwork(v: Option<Value>): Option<Network> {
    if Uint(v) == Some(0) then Some(Testnet) else if Uint(v) == Some(1) then Some(Mainnet) else None
  }

  function ParseChain(v: Option<Value>): Option<Chain> {
    if Uint(v) == Some(0) then Some(Nem) else if Uint(v) == Some(1) then Some(Symbol) else None
  }

  type Parse<T> = Result<T, ErrorCode>

  function Required<T>(o: Option<T>): Parse<T> {
    if o.Some? then Ok(o.value) else Err(InvalidStore)
  }

  function Check(condition: bool): Parse<()> {
    if condition then Ok(()) else Err(InvalidStore)
  }

  function RequiredMap(v: Option<Value>): Parse<seq<Entry>> {
    if v.Some? && v.value.Map? then Ok(v.value.entries) else Err(InvalidStore)
  }

  function RequiredArray(v: Option<Value>): Parse<seq<Value>> {
    if v.Some? && v.value.Array? then Ok(v.value.items) else Err(InvalidStore)
  }

  // ----- the envelope

  function ParseKdf(v: Option<Value>): Parse<Kdf> {
    var fields :- RequiredMap(v);
    var _ :- Check(UnknownAllowed(fields, 6));
    var _ :- Check(
      && Uint(MapValue(fields, 0)) == Some(KDF_ALGORITHM)
      && Uint(MapValue(fields, 1)) == Some(KDF_VERSION)
      && Uint(MapValue(fields, 2)) == Some(KDF_MEMORY_KIB)
      && Uint(MapValue(fields, 3)) == Some(KDF_ITERATIONS)
      && Uint(MapValue(fields, 4)) == Some(KDF_PARALLELISM));
    var salt :- Required(FixedBytes(MapValue(fields, 5), 16));
    Ok(Kdf(salt, UnknownFields(fields, 6)))
  }

  function ParseCipher(v: Option<Value>): Parse<Cipher> {
    var fields :- RequiredMap(v);
    var _ :- Check(UnknownAllowed(fields, 4));
    var _ :- Check(Uint(MapValue(fields, 0)) == Some(CIPHER_ALGORITHM));
    var nonce :- Required(FixedBytes(MapValue(fields, 1), 12));
    var body := MapValue(fields, 2);
    var _ :- Check(body.Some? && body.value.Bytes? && |body.value.bytes| <= MAX_CIPHERTEXT);
    var tag :- Required(FixedBytes(MapValue(fields, 3), 16));
    Ok(Cipher(nonce, body.value.bytes, tag, UnknownFields(fields, 4)))
  }

  function ParseIndexEntry(v: Value): Parse<IndexEntry> {
    var fields :- RequiredMap(Some(v));
    var _ :- Check(UnknownAllowed(fields, 2));
    var keyId :- Required(FixedBytes(MapValue(fields, 0), 16));
    var chain :- Required(ParseChain(MapValue(fields, 1)));
    Ok(IndexEntry(keyId, chain))
  }

  // Entries in strictly ascending order of key id.
  function ParseIndex(values: seq<Value>): Parse<seq<IndexEntry>> {
    if values == [] then Ok([]) else
    var entries :- ParseIndex(values[..|values| - 1]);
    var entry :- ParseIndexEntry(values[|values| - 1]);
    var _ :- Check(entries == [] || Less(entries[|entries| - 1].keyId, entry.keyId));
    Ok(entries + [entry])
  }

  function ParseProfile(v: Value): Parse<Profile> {
    var fields :- RequiredMap(Some(v));
    var _ :- Check(UnknownAllowed(fields, 7));
    var profileId :- Required(FixedBytes(MapValue(fields, 0), 16));
    var network :- Required(ParseNetwork(MapValue(fields, 1)));
    var duplicateTag :- Required(FixedBytes(MapValue(fields, 2), 32));
    var version :- Required(Uint(MapValue(fields, 3)));
    if version != PROFILE_SCHEMA_VERSION then Err(UnsupportedProfileSchemaVersion) else
    var kdf :- ParseKdf(MapValue(fields, 4));
    var cipher :- ParseCipher(MapValue(fields, 5));
    var aadIndex :- RequiredArray(MapValue(fields, 6));
    var _ :- Check(|aadIndex| <= MAX_KEYS);
    var index :- ParseIndex(aadIndex);
    Ok(Profile(profileId, network, duplicateTag, kdf, cipher, index, aadIndex, UnknownFields(fields, 7)))
  }

  // Profiles in strictly ascending order of profile id.
  function ParseProfiles(values: seq<Value>): Parse<seq<Profile>> {
    if values == [] then Ok([]) else
    var profiles :- ParseProfiles(values[..|values| - 1]);
    var profile :- ParseProfile(values[|values| - 1]);
    var _ :- Check(profiles == [] || Less(profiles[|profiles| - 1].profileId, profile.profileId));
    Ok(profiles + [profile])
  }

  function ParseStore(v: Value): Parse<Store> {
    var fields :- RequiredMap(Some(v));
    var _ :- Check(UnknownAllowed(fields, 4));
    var magic :- Required(FixedBytes(MapValue(fields, 0), 4));
    var _ :- Check(magic == MAGIC);
    var version :- Required(Uint(MapValue(fields, 1)));
    if version != STORE_VERSION then Err(UnsupportedStoreVersion) else
    var registryKey :- Required(FixedBytes(MapValue(fields, 2), 32));
    var values :- RequiredArray(MapValue(fields, 3));
    var _ :- Check(|values| <= MAX_PROFILES);
    var profiles :- ParseProfiles(values);
    Ok(Store(registryKey, profiles, UnknownFields(fields, 4)))
  }

  function DecodeStore(bytes: seq<byte>): Parse<Store> {
    if |bytes| > MAX_STORE_BYTES then Err(InvalidStore) else
    match Decode(bytes, WALLET_STORE_LIMITS)
    case Ok(v) => ParseStore(v)
    case Err(_) => Err(InvalidStore)
  }

  // ----- the encrypted payload

  function ParseOrigin(fields: seq<Entry>): Parse<Origin> {
    var wire :- Required(Uint(MapValue(fields, 0)));
    if wire == 0 then
      var accountIndex :- Required(Uint(MapValue(fields, 1)));
      if accountIndex > MAX_ACCOUNT_INDEX then Err(InvalidStore) else Ok(Derived(accountIndex))
    else if wire == 1 then Ok(Imported)
    else if wire == 2 then Ok(Generated)
    else Err(InvalidStore)
  }

  function OriginFields(origin: Origin): nat {
    if origin.Derived? then 2 else 1
  }

  function ParseKeyRecord(v: Value): Parse<KeyRecord> {
    var fields :- RequiredMap(Some(v));
    var _ :- Check(UnknownAllowed(fields, 4));
    var keyId :- Required(FixedBytes(MapValue(fields, 0), 16));
    var chain :- Required(ParseChain(MapValue(fields, 1)));
    var originMap :- RequiredMap(MapValue(fields, 3));
    var origin :- ParseOrigin(originMap);
    var _ :- Check(UnknownAllowed(originMap, OriginFields(origin)));
    var privateKey :- Required(FixedBytes(MapValue(fields, 2), 32));
    Ok(KeyRecord(
      keyId, chain, privateKey, origin, UnknownFields(fields, 4), UnknownFields(originMap, OriginFields(origin))))
  }

  function ParseKeys(values: seq<Value>): Parse<seq<KeyRecord>> {
    if values == [] then Ok([]) else
    var keys :- ParseKeys(values[..|values| - 1]);
    var key :- ParseKeyRecord(values[|values| - 1]);
    var _ :- Check(keys == [] || Less(keys[|keys| - 1].keyId, key.keyId));
    Ok(keys + [key])
  }

  function ParsePayloadValue(v: Value): Parse<Payload> {
    var fields :- RequiredMap(Some(v));
    var _ :- Check(UnknownAllowed(fields, 2));
    var entropy :- Required(FixedBytes(MapValue(fields, 0), 32));
    var values :- RequiredArray(MapValue(fields, 1));
    var _ :- Check(|values| <= MAX_KEYS);
    var keys :- ParseKeys(values);
    Ok(Payload(entropy, keys, UnknownFields(fields, 2)))
  }

  function ParsePayload(bytes: seq<byte>): Parse<Payload> {
    match Decode(bytes, PROFILE_PAYLOAD_LIMITS)
    case Ok(v) => ParsePayloadValue(v)
    case Err(_) => Err(InvalidStore)
  }

  // ----- building the values again

  function KdfToValue(kdf: Kdf): Value {
    Map(KdfKnown(kdf) + kdf.unknown)
  }

  function KdfKnown(kdf: Kdf): seq<Entry> {
    [Entry(0, UInt(KDF_ALGORITHM)), Entry(1, UInt(KDF_VERSION)), Entry(2, UInt(KDF_MEMORY_KIB)),
     Entry(3, UInt(KDF_ITERATIONS)), Entry(4, UInt(KDF_PARALLELISM)), Entry(5, Bytes(kdf.salt))]
  }

  function CipherToValue(cipher: Cipher): Value {
    Map(CipherKnown(cipher) + cipher.unknown)
  }

  function CipherKnown(cipher: Cipher): seq<Entry> {
    [Entry(0, UInt(CIPHER_ALGORITHM)), Entry(1, Bytes(cipher.nonce)), Entry(2, Bytes(cipher.ciphertext)),
     Entry(3, Bytes(cipher.tag))]
  }

  function IndexKnown(entry: IndexEntry): seq<Entry> {
    [Entry(0, Bytes(entry.keyId)), Entry(1, UInt(entry.chain.Wire()))]
  }

  function IndexToValue(entry: IndexEntry): Value {
    Map(IndexKnown(entry))
  }

  function IndexToValues(index: seq<IndexEntry>): (r: seq<Value>)
    ensures |r| == |index| && forall i | 0 <= i < |index| :: r[i] == IndexToValue(index[i])
  {
    if index == [] then [] else IndexToValues(index[..|index| - 1]) + [IndexToValue(index[|index| - 1])]
  }

  function ProfileKnown(profile: Profile): seq<Entry> {
    [Entry(0, Bytes(profile.profileId)), Entry(1, UInt(profile.network.Wire())), Entry(2, Bytes(profile.duplicateTag)),
     Entry(3, UInt(PROFILE_SCHEMA_VERSION)), Entry(4, KdfToValue(profile.kdf)), Entry(5, CipherToValue(profile.cipher)),
     Entry(6, Array(profile.aadIndex))]
  }

  function ProfileToValue(profile: Profile): Value {
    Map(ProfileKnown(profile) + profile.unknown)
  }

  function ProfileValues(profiles: seq<Profile>): (r: seq<Value>)
    ensures |r| == |profiles| && forall i | 0 <= i < |profiles| :: r[i] == ProfileToValue(profiles[i])
  {
    if profiles == [] then [] else ProfileValues(profiles[..|profiles| - 1]) + [ProfileToValue(profiles[|profiles| - 1])]
  }

  predicate ProfileLess(a: Profile, b: Profile) {
    Less(a.profileId, b.profileId)
  }

  function StoreKnown(store: Store): seq<Entry> {
    [Entry(0, Bytes(MAGIC)), Entry(1, UInt(STORE_VERSION)), Entry(2, Bytes(store.registryKey)),
     Entry(3, Array(ProfileValues(Sort(ProfileLess, store.profiles))))]
  }

  function StoreToValue(store: Store): Value {
    Map(StoreKnown(store) + store.unknown)
  }

  function EncodeStore(store: Store): Parse<seq<byte>> {
    if |store.profiles| > MAX_PROFILES then Err(SerializationFailure) else
    match Encode(StoreToValue(store))
    case Err(_) => Err(SerializationFailure)
    case Ok(bytes) => if |bytes| > MAX_STORE_BYTES then Err(SerializationFailure) else Ok(bytes)
  }

  function OriginKnown(origin: Origin): seq<Entry> {
    match origin
    case Derived(accountIndex) => [Entry(0, UInt(0)), Entry(1, UInt(accountIndex))]
    case Imported => [Entry(0, UInt(1))]
    case Generated => [Entry(0, UInt(2))]
  }

  function KeyKnown(key: KeyRecord): seq<Entry> {
    [Entry(0, Bytes(key.keyId)), Entry(1, UInt(key.chain.Wire())), Entry(2, Bytes(key.privateKey)),
     Entry(3, Map(OriginKnown(key.origin) + key.originUnknown))]
  }

  function KeyToValue(key: KeyRecord): Value {
    Map(KeyKnown(key) + key.unknown)
  }

  function KeyValues(keys: seq<KeyRecord>): (r: seq<Value>)
    ensures |r| == |keys| && forall i | 0 <= i < |keys| :: r[i] == KeyToValue(keys[i])
  {
    if keys == [] then [] else KeyValues(keys[..|keys| - 1]) + [KeyToValue(keys[|keys| - 1])]
  }

  predicate KeyIdLess(a: KeyRecord, b: KeyRecord) {
    Less(a.keyId, b.keyId)
  }

  function PayloadKnown(payload: Payload): seq<Entry> {
    [Entry(0, Bytes(payload.entropy)), Entry(1, Array(KeyValues(Sort(KeyIdLess, payload.keys))))]
  }

  function PayloadToValue(payload: Payload): Value {
    Map(PayloadKnown(payload) + payload.unknown)
  }

  function EncodePayload(payload: Payload): Parse<seq<byte>> {
    if |payload.keys| > MAX_KEYS then Err(SerializationFailure) else
    match Encode(PayloadToValue(payload))
    case Err(_) => Err(SerializationFailure)
    case Ok(bytes) => Ok(bytes)
  }
}
