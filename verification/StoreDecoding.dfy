// The decoding loops of the wallet, each proved to compute what the format says.
module StoreDecoding {
  import opened Wrappers
  import opened Bytes
  import opened Cbor
  import opened WalletTypes
  import opened StoreFormat
  import CborCodec

  // A loop that stops at the first bad element reports what the whole list reports.
  lemma {:induction false} IndexStops(values: seq<Value>, i: nat)
    requires i <= |values| && StoreFormat.ParseIndex(values[..i]).Err?
    ensures StoreFormat.ParseIndex(values) == StoreFormat.ParseIndex(values[..i])
  {
    hide ParseIndexEntry;
    if i == |values| {
      assert values[..i] == values;
    } else {
      assert values[..|values| - 1][..i] == values[..i];
      IndexStops(values[..|values| - 1], i);
    }
  }

  lemma {:induction false} ProfilesStop(values: seq<Value>, i: nat)
    requires i <= |values| && ParseProfiles(values[..i]).Err?
    ensures ParseProfiles(values) == ParseProfiles(values[..i])
  {
    hide ParseProfile;
    if i == |values| {
      assert values[..i] == values;
    } else {
      assert values[..|values| - 1][..i] == values[..i];
      ProfilesStop(values[..|values| - 1], i);
    }
  }

  lemma {:induction false} KeysStop(values: seq<Value>, i: nat)
    requires i <= |values| && ParseKeys(values[..i]).Err?
    ensures ParseKeys(values) == ParseKeys(values[..i])
  {
    hide ParseKeyRecord;
    if i == |values| {
      assert values[..i] == values;
    } else {
      assert values[..|values| - 1][..i] == values[..i];
      KeysStop(values[..|values| - 1], i);
    }
  }

  method ReadIndex(values: seq<Value>) returns (r: Parse<seq<IndexEntry>>)
    ensures r == StoreFormat.ParseIndex(values)
  {
    hide ParseIndexEntry, Less;
    var entries: seq<IndexEntry> := [];
    for i := 0 to |values|
      invariant StoreFormat.ParseIndex(values[..i]) == Ok(entries)
    {
      assert values[..i + 1][..i] == values[..i];
      var entry := ParseIndexEntry(values[i]);
      if entry.Err? {
        IndexStops(values, i + 1);
        return Err(entry.error);
      }
      if entries != [] && !Less(entries[|entries| - 1].keyId, entry.value.keyId) {
        IndexStops(values, i + 1);
        return Err(InvalidStore);
      }
      entries := entries + [entry.value];
    }
    assert values[..|values|] == values;
    r := Ok(entries);
  }

  method ReadProfile(v: Value) returns (r: Parse<Profile>)
    ensures r == StoreFormat.ParseProfile(v)
  {
    hide UnknownAllowed, MapValue, FixedBytes, ParseNetwork, Uint, ParseKdf, ParseCipher, StoreFormat.ParseIndex,
      UnknownFields;
    var fields :- RequiredMap(Some(v));
    var _ :- Check(UnknownAllowed(fields, 7));
    var profileId :- Required(FixedBytes(MapValue(fields, 0), 16));
    var network :- Required(ParseNetwork(MapValue(fields, 1)));
    var duplicateTag :- Required(FixedBytes(MapValue(fields, 2), 32));
    var version :- Required(Uint(MapValue(fields, 3)));
    if version != PROFILE_SCHEMA_VERSION {
      return Err(UnsupportedProfileSchemaVersion);
    }
    var kdf :- ParseKdf(MapValue(fields, 4));
    var cipher :- ParseCipher(MapValue(fields, 5));
    var aadIndex :- RequiredArray(MapValue(fields, 6));
    if |aadIndex| > MAX_KEYS {
      return Err(InvalidStore);
    }
    var index :- ReadIndex(aadIndex);
    r := Ok(Profile(profileId, network, duplicateTag, kdf, cipher, index, aadIndex, UnknownFields(fields, 7)));
  }

  method ReadProfiles(values: seq<Value>) returns (r: Parse<seq<Profile>>)
    ensures r == StoreFormat.ParseProfiles(values)
  {
    hide ParseProfile, Less;
    var profiles: seq<Profile> := [];
    for i := 0 to |values|
      invariant ParseProfiles(values[..i]) == Ok(profiles)
    {
      assert values[..i + 1][..i] == values[..i];
      var profile := ReadProfile(values[i]);
      if profile.Err? {
        ProfilesStop(values, i + 1);
        return Err(profile.error);
      }
      if profiles != [] && !Less(profiles[|profiles| - 1].profileId, profile.value.profileId) {
        ProfilesStop(values, i + 1);
        return Err(InvalidStore);
      }
      profiles := profiles + [profile.value];
    }
    assert values[..|values|] == values;
    r := Ok(profiles);
  }

  method ReadStore(v: Value) returns (r: Parse<Store>)
    ensures r == StoreFormat.ParseStore(v)
  {
    hide UnknownAllowed, MapValue, FixedBytes, Uint, ParseProfiles, UnknownFields;
    var fields :- RequiredMap(Some(v));
    var _ :- Check(UnknownAllowed(fields, 4));
    var magic :- Required(FixedBytes(MapValue(fields, 0), 4));
    if magic != MAGIC {
      return Err(InvalidStore);
    }
    var version :- Required(Uint(MapValue(fields, 1)));
    if version != STORE_VERSION {
      return Err(UnsupportedStoreVersion);
    }
    var registryKey :- Required(FixedBytes(MapValue(fields, 2), 32));
    var values :- RequiredArray(MapValue(fields, 3));
    if |values| > MAX_PROFILES {
      return Err(InvalidStore);
    }
    var profiles :- ReadProfiles(values);
    r := Ok(Store(registryKey, profiles, UnknownFields(fields, 4)));
  }

  // `decode_store`, on top of the cursor parser.
  method ReadStoreBytes(bytes: seq<byte>) returns (r: Parse<Store>)
    ensures r == StoreFormat.DecodeStore(bytes)
  {
    hide Decode, ParseStore;
    if |bytes| > MAX_STORE_BYTES {
      return Err(InvalidStore);
    }
    var decoded := CborCodec.DecodeWithLimits(bytes, WALLET_STORE_LIMITS);
    if decoded.Err? {
      return Err(InvalidStore);
    }
    r := ReadStore(decoded.value);
  }

  method ReadKeys(values: seq<Value>) returns (r: Parse<seq<KeyRecord>>)
    ensures r == StoreFormat.ParseKeys(values)
  {
    hide ParseKeyRecord, Less;
    var keys: seq<KeyRecord> := [];
    for i := 0 to |values|
      invariant ParseKeys(values[..i]) == Ok(keys)
    {
      assert values[..i + 1][..i] == values[..i];
      var key := ParseKeyRecord(values[i]);
      if key.Err? {
        KeysStop(values, i + 1);
        return Err(key.error);
      }
      if keys != [] && !Less(keys[|keys| - 1].keyId, key.value.keyId) {
        KeysStop(values, i + 1);
        return Err(InvalidStore);
      }
      keys := keys + [key.value];
    }
    assert values[..|values|] == values;
    r := Ok(keys);
  }

  // `parse_payload`, run only on authenticated plaintext.
  method ReadPayloadBytes(bytes: seq<byte>) returns (r: Parse<Payload>)
    ensures r == StoreFormat.ParsePayload(bytes)
  {
    hide Decode, UnknownAllowed, MapValue, FixedBytes, ParseKeys, UnknownFields;
    var decoded := CborCodec.DecodeWithLimits(bytes, PROFILE_PAYLOAD_LIMITS);
    if decoded.Err? {
      return Err(InvalidStore);
    }
    var fields :- RequiredMap(Some(decoded.value));
    var _ :- Check(UnknownAllowed(fields, 2));
    var entropy :- Required(FixedBytes(MapValue(fields, 0), 32));
    var values :- RequiredArray(MapValue(fields, 1));
    if |values| > MAX_KEYS {
      return Err(InvalidStore);
    }
    var keys :- ReadKeys(values);
    r := Ok(Payload(entropy, keys, UnknownFields(fields, 2)));
  }
}
