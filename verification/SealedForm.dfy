// What is sealed, under which key and with which associated data, byte by byte; when a profile
// opens; and which versions are refused.
module SealedForm {
  import opened Wrappers
  import opened Bytes
  import opened Sorting
  import opened Utf8
  import opened Cbor
  import opened CborTheory
  import opened CborSpelling
  import opened WalletTypes
  import opened WalletCrypto
  import opened StoreFormat
  import opened StoreFormatTheory
  import opened PayloadTheory
  import opened StoreOps
  import opened IndexTheory
  import opened SealTheory
  import opened KeyTheory
  import opened Pending
  import opened PendingTheory
  import opened StoreOutcomes
  import opened DuplicateProfiles
  import opened StoreLayout

  // ----- passwords

  // A password is a non-empty text.
  lemma PasswordExactly(password: seq<byte>)
    ensures ValidPassword(password) <==> password != [] && IsText(password)
  {
    hide IsText, IsUtf8;
    Utf8Exactly(password);
  }

  // ----- sealing

  lemma AadExactly(registryKey: Bytes32, p: Profile)
    requires ProfileWellFormed(p)
    ensures Aad(registryKey, p) == Ok(AadBytes(registryKey, p))
  {
    hide Canonical, MachineSized, Wire, Spelling, ProfileWellFormed, AadBytes, Encodable, Normalize;
    AadCanonical(registryKey, p);
    CanonicalIsNormal(AadValue(registryKey, p));
    Spelled(AadValue(registryKey, p));
    AadSpelled(registryKey, p);
  }

  // What is sealed is the payload with its keys in order, under the Argon2id key of password and
  // salt, with these associated data.
  lemma SealedExactly(
    c: Crypto, registryKey: Bytes32, p: Profile, payload: Payload, password: seq<byte>, drawn: Option<Bytes12>,
    q: Profile)
    requires SealProfile(c, registryKey, p, payload, password, drawn) == Ok(q)
    requires ProfileWellFormed(p) && PayloadWellFormed(Ordered(payload))
    ensures drawn.Some?
    ensures var box := c.seal(
        c.argon2id(password, p.kdf.salt), drawn.value, AadBytes(registryKey, p), PayloadBytes(Ordered(payload)));
      q == p.(cipher := Cipher(drawn.value, box.ciphertext, box.tag, p.cipher.unknown))
  {
    hide EncodePayload, ProfileWellFormed, PayloadWellFormed, AadBytes, PayloadBytes, Aad, ValidPassword, Ordered;
    AadExactly(registryKey, p);
    OrderedEncoding(payload);
    EncodedExactly(Ordered(payload));
  }

  lemma EncodedExactly(payload: Payload)
    requires PayloadWellFormed(payload)
    ensures EncodePayload(payload) == Ok(PayloadBytes(payload))
  {
    hide PayloadWellFormed, PayloadBytes, PayloadToValue, EncodePayload, Wire, Spelling, Admissible;
    PayloadEncoding(payload);
    PayloadBuilt(payload);
    PayloadInOrder(payload);
    PayloadSpelled(payload);
    AdmissibleSpelled(PayloadToValue(payload), PAYLOAD);
  }

  // ----- opening

  // The payload is the one of this profile: its mnemonic has the tag, its keys are those listed,
  // in order, and none is zero.
  ghost predicate PayloadOf(c: Crypto, registryKey: Bytes32, p: Profile, payload: Payload) {
    && p.duplicateTag == c.hmacSha256(registryKey, TagMessage(p.network, payload.entropy))
    && |p.index| == |payload.keys|
    && forall i | 0 <= i < |payload.keys| ::
      p.index[i] == IndexEntry(payload.keys[i].keyId, payload.keys[i].chain) && NonZeroKey(payload.keys[i].privateKey)
  }

  lemma PayloadOfExactly(c: Crypto, registryKey: Bytes32, p: Profile, payload: Payload)
    ensures ValidateAuthenticated(c, registryKey, p, payload) <==> PayloadOf(c, registryKey, p, payload)
  {
    hide DuplicateTag, TagMessage, ValidPrivateKey, NonZeroKey;
    TagExactly(c, registryKey, p.network, payload.entropy);
    forall i | 0 <= i < |payload.keys|
      ensures ValidPrivateKey(payload.keys[i].privateKey) <==> NonZeroKey(payload.keys[i].privateKey)
    {
      ValidIsNonZero(payload.keys[i].privateKey);
    }
    if PayloadOf(c, registryKey, p, payload) {
      assert p.index == IndexOfKeys(payload.keys);
    }
  }

  // A profile opens to a payload exactly when the password is a text, the ciphertext decrypts
  // under its key and the associated data to the bytes of the payload, and that is the profile's.
  lemma OpensExactly(c: Crypto, registryKey: Bytes32, p: Profile, password: seq<byte>, payload: Payload)
    requires ProfileWellFormed(p)
    ensures OpenProfile(c, registryKey, p, password) == Ok(payload) <==>
      && password != [] && IsText(password)
      && c.unseal(c.argon2id(password, p.kdf.salt), p.cipher.nonce, p.cipher.tag, AadBytes(registryKey, p),
          p.cipher.ciphertext) == Some(PayloadBytes(payload))
      && PayloadGood(payload) && |PayloadBytes(payload)| <= 1048576
      && PayloadOf(c, registryKey, p, payload)
  {
    hide ProfileWellFormed, AadBytes, PayloadBytes, Aad, ValidPassword, ParsePayload, ValidateAuthenticated, PayloadOf,
      PayloadGood, IsText;
    AadExactly(registryKey, p);
    PasswordExactly(password);
    PayloadOfExactly(c, registryKey, p, payload);
    var o := c.unseal(c.argon2id(password, p.kdf.salt), p.cipher.nonce, p.cipher.tag, AadBytes(registryKey, p),
      p.cipher.ciphertext);
    if o.Some? {
      PayloadInLayout(o.value, payload);
    }
  }

  // And otherwise: a password that is no text, a decryption that fails, or a content that is not
  // a payload of this profile.
  lemma OpenErrors(c: Crypto, registryKey: Bytes32, p: Profile, password: seq<byte>)
    requires ProfileWellFormed(p)
    ensures var r := OpenProfile(c, registryKey, p, password);
      var o := c.unseal(c.argon2id(password, p.kdf.salt), p.cipher.nonce, p.cipher.tag, AadBytes(registryKey, p),
        p.cipher.ciphertext);
      && (r == Err(InvalidArgument) <==> !ValidPassword(password))
      && (r == Err(AuthenticationFailed) <==> ValidPassword(password) && o.None?)
      && (r.Err? && ValidPassword(password) && o.Some? ==> r == Err(InvalidStore))
  {
    hide ProfileWellFormed, AadBytes, Aad, ValidPassword, ParsePayload, ValidateAuthenticated;
    AadExactly(registryKey, p);
    var o := c.unseal(c.argon2id(password, p.kdf.salt), p.cipher.nonce, p.cipher.tag, AadBytes(registryKey, p),
      p.cipher.ciphertext);
    if o.Some? {
      PayloadErrors(o.value);
    }
  }

  lemma PayloadErrors(bytes: seq<byte>)
    ensures ParsePayload(bytes).Err? ==> ParsePayload(bytes) == Err(InvalidStore)
  {
    hide Decode, ParseKeys, UnknownAllowed, MapValue, UnknownFields;
    if Decode(bytes, PROFILE_PAYLOAD_LIMITS).Ok? {
      var v := Decode(bytes, PROFILE_PAYLOAD_LIMITS).value;
      if v.Map? && MapValue(v.entries, 1).Some? && MapValue(v.entries, 1).value.Array? {
        KeysErrors(MapValue(v.entries, 1).value.items);
      }
    }
  }

  lemma {:induction false} KeysErrors(values: seq<Value>)
    ensures ParseKeys(values).Err? ==> ParseKeys(values) == Err(InvalidStore)
  {
    hide ParseKeyRecord, Less;
    if values != [] {
      KeysErrors(values[..|values| - 1]);
      KeyErrors(values[|values| - 1]);
    }
  }

  lemma KeyErrors(v: Value)
    ensures ParseKeyRecord(v).Err? ==> ParseKeyRecord(v) == Err(InvalidStore)
  {
    hide UnknownAllowed, MapValue, UnknownFields;
  }

  // ----- the pending envelope

  // Its first 58 bytes, which are also its associated data.
  function PendingPrefix(storeHash: Bytes32, profileId: Bytes16, network: Network): (s: seq<byte>)
    ensures |s| == 58
  {
    Ascii("SNWCPND1") + [1] + storeHash + profileId + [NetworkByte(network)]
  }

  lemma PendingText()
    ensures PENDING_MAGIC == Ascii("SNWCPND1")
  {
  }

  lemma PendingLayout(p: Envelope)
    ensures PendingAad(p) == PendingPrefix(p.targetStoreHash, p.profileId, p.network)
    ensures EncodePending(p) ==
      PendingPrefix(p.targetStoreHash, p.profileId, p.network) + p.salt + p.nonce + p.ciphertext + p.tag
  {
    hide Ascii;
    PendingText();
  }

  // An envelope is read from 134 bytes: the prefix, and salt, nonce, 32 bytes of ciphertext and tag.
  lemma PendingExactly(bytes: seq<byte>, p: Envelope)
    ensures ParsePending(bytes) == Ok(p) <==>
      && |bytes| == 134 && bytes[..58] == PendingPrefix(p.targetStoreHash, p.profileId, p.network)
      && bytes[58..74] == p.salt && bytes[74..86] == p.nonce && bytes[86..118] == p.ciphertext && bytes[118..134] == p.tag
  {
    hide PendingPrefix, EncodePending, ParsePending, PendingAad;
    PendingCodec(bytes, p);
    PendingLayout(p);
    var prefix := PendingPrefix(p.targetStoreHash, p.profileId, p.network);
    PendingParts(bytes, prefix, p.salt, p.nonce, p.ciphertext, p.tag);
  }

  lemma PendingParts(bytes: seq<byte>, prefix: seq<byte>, salt: Bytes16, nonce: Bytes12, body: seq<byte>, tag: Bytes16)
    requires |prefix| == 58
    ensures |body| == 32 && bytes == prefix + salt + nonce + body + tag <==>
      && |bytes| == 134 && bytes[..58] == prefix && bytes[58..74] == salt && bytes[74..86] == nonce
      && bytes[86..118] == body && bytes[118..134] == tag
  {
    if |bytes| == 134 {
      assert bytes == bytes[..58] + bytes[58..74] + bytes[74..86] + bytes[86..118] + bytes[118..134];
    }
  }

  // What is prepared: the entropy drawn, sealed under the password, salt and nonce drawn, bound to
  // the hash of the Store, the first free id and the network.
  lemma PreparedExactly(
    c: Crypto, store: seq<byte>, password: seq<byte>, network: Network, random: Random, r: Prepared)
    returns (s: Store, profileId: Bytes16)
    requires PrepareGeneratedProfile(c, store, password, network, random) == Ok(r)
    ensures DecodeStore(store) == Ok(s) && FirstFree(random.ids, ProfileIds(s.profiles), profileId)
    ensures random.entropy.Some? && random.salt.Some? && random.nonce.Some?
    ensures r.mnemonic == c.mnemonic(random.entropy.value)
    ensures var prefix := PendingPrefix(c.sha256(store), profileId, network);
      var box := c.seal(c.argon2id(password, random.salt.value), random.nonce.value, prefix, random.entropy.value);
      |box.ciphertext| == 32 && r.pending == prefix + random.salt.value + random.nonce.value + box.ciphertext + box.tag
  {
    hide DecodeStore, ValidPassword, FreshId, ProfileIds, FirstFree, PendingPrefix, PendingAad, EncodePending;
    s := DecodeStore(store).value;
    FreshIdExactly(random.ids, ProfileIds(s.profiles));
    profileId := FreshId(random.ids, ProfileIds(s.profiles)).value;
    var unsealed :=
      Envelope(c.sha256(store), profileId, network, random.salt.value, random.nonce.value, [], ZERO16);
    PendingLayout(unsealed);
    PendingLayout(WithBox(unsealed, c.seal(
      c.argon2id(password, random.salt.value), random.nonce.value, PendingAad(unsealed), random.entropy.value)));
  }

  // ----- versions

  lemma {:induction false} FieldIs(fields: seq<Entry>, key: u64, v: Value)
    requires Ascending(fields)
    ensures MapValue(fields, key) == Some(v) <==> Entry(key, v) in fields
  {
    if MapValue(fields, key).Some? {
      var i := MapValueSome(fields, key);
    }
    if Entry(key, v) in fields {
      var i :| 0 <= i < |fields| && fields[i] == Entry(key, v);
      MapValueFinds(fields, i);
    }
  }

  // The fields beyond the known ones hold plain values only.
  ghost predicate PlainBeyond(fields: seq<Entry>, known: nat) {
    forall i | 0 <= i < |fields| && fields[i].key >= known :: OnlyPlain(fields[i].value)
  }

  lemma PlainBeyondExactly(fields: seq<Entry>, known: nat)
    ensures UnknownAllowed(fields, known) <==> PlainBeyond(fields, known)
  {
    hide AllowedUnknown, OnlyPlain;
    forall i | 0 <= i < |fields| ensures AllowedUnknown(fields[i].value) <==> OnlyPlain(fields[i].value) {
      PlainExactly(fields[i].value);
    }
  }

  ghost predicate OtherVersion(fields: seq<Entry>, version: u64) {
    && PlainBeyond(fields, 4)
    && Entry(0, Bytes(Ascii("SNWC"))) in fields
    && Entry(1, UInt(version)) in fields
    && version != 1
  }

  // The Store's version is refused exactly when what it follows is right.
  lemma VersionExactly(bytes: seq<byte>)
    ensures DecodeStore(bytes) == Err(UnsupportedStoreVersion) <==>
      |bytes| <= 16777216 && exists fields, version ::
        Readable(Map(fields), 32) && bytes == Spelling(Map(fields)) && OtherVersion(fields, version)
  {
    hide ParseStore, Decode, Readable, Spelling, OtherVersion;
    if Decode(bytes, WALLET_STORE_LIMITS).Ok? {
      var v := Decode(bytes, WALLET_STORE_LIMITS).value;
      StoreInput(bytes, v);
      if v.Map? {
        ParsedVersion(v.entries, 32);
      } else {
        NotMap(v);
      }
    }
    forall fields, version | |bytes| <= 16777216 && Readable(Map(fields), 32) && bytes == Spelling(Map(fields))
      && OtherVersion(fields, version) ensures DecodeStore(bytes) == Err(UnsupportedStoreVersion)
    {
      StoreInput(bytes, Map(fields));
      ParsedVersion(fields, 32);
    }
  }

  lemma NotMap(v: Value)
    requires !v.Map?
    ensures ParseStore(v) == Err(InvalidStore)
  {
  }

  lemma ParsedVersion(fields: seq<Entry>, depth: nat)
    requires Readable(Map(fields), depth)
    ensures ParseStore(Map(fields)) == Err(UnsupportedStoreVersion) <==>
      exists version :: OtherVersion(fields, version)
  {
    hide MapValue, UnknownAllowed, UnknownFields, ParseProfiles, PlainBeyond, OnlyPlain, Ascii;
    AscendingMeans(fields);
    PlainBeyondExactly(fields, 4);
    MagicText();
    FieldIs(fields, 0, Bytes(MAGIC));
    forall version: u64 ensures MapValue(fields, 1) == Some(UInt(version)) <==> Entry(1, UInt(version)) in fields {
      FieldIs(fields, 1, UInt(version));
    }
    if MapValue(fields, 3).Some? && MapValue(fields, 3).value.Array? {
      ProfilesNotStoreVersion(MapValue(fields, 3).value.items);
    }
    if ParseStore(Map(fields)) == Err(UnsupportedStoreVersion) {
      var version := MapValue(fields, 1).value.n;
      assert OtherVersion(fields, version);
    }
  }

  lemma {:induction false} ProfilesNotStoreVersion(values: seq<Value>)
    ensures ParseProfiles(values) != Err(UnsupportedStoreVersion)
  {
    hide ParseProfile, Less;
    if values != [] {
      ProfilesNotStoreVersion(values[..|values| - 1]);
      ProfileNotStoreVersion(values[|values| - 1]);
    }
  }

  lemma ProfileNotStoreVersion(v: Value)
    ensures ParseProfile(v) != Err(UnsupportedStoreVersion)
  {
    hide ParseIndex, UnknownAllowed, MapValue, UnknownFields, ParseKdf, ParseCipher;
    if v.Map? {
      PartErrors(MapValue(v.entries, 4), MapValue(v.entries, 5));
      if MapValue(v.entries, 6).Some? && MapValue(v.entries, 6).value.Array? {
        IndexErrors(MapValue(v.entries, 6).value.items);
      }
    }
  }
}
