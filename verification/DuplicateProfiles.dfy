// When a profile is created, and when it is refused as a duplicate: by the HMAC of its network
// and entropy, byte by byte.
module DuplicateProfiles {
  import opened Wrappers
  import opened Bytes
  import opened Sorting
  import opened Cbor
  import opened WalletTypes
  import opened WalletCrypto
  import opened StoreFormat
  import opened StoreFormatTheory
  import opened PayloadTheory
  import opened StoreOps
  import opened SealTheory
  import opened WireSizes
  import opened MutationTheory
  import opened ProfileTheory
  import opened Pending
  import opened PendingTheory
  import opened StoreOutcomes

  // ----- the message under the tag

  function TagMessage(network: Network, entropy: Bytes32): seq<byte> {
    Ascii("symbol-nem-wallet-core/profile-duplicate/v1") + [if network.Testnet? then 0 else 1] + entropy
  }

  lemma DomainText()
    ensures DUPLICATE_DOMAIN == Ascii("symbol-nem-wallet-core/profile-duplicate/v1")
  {
    var text := "symbol-nem-wallet-core/profile-duplicate/v1";
    assert |text| == 43;
    assert forall i | 0 <= i < 43 :: Ascii(text)[i] == text[i] as int;
    assert forall i | 0 <= i < 43 :: DUPLICATE_DOMAIN[i] == text[i] as int;
  }

  // The tag is the HMAC, under the registry key, of the domain, the network and the entropy.
  lemma TagExactly(c: Crypto, registryKey: Bytes32, network: Network, entropy: Bytes32)
    ensures DuplicateTag(c, registryKey, network, entropy) == c.hmacSha256(registryKey, TagMessage(network, entropy))
  {
    hide Ascii;
    DomainText();
  }

  // Each network and entropy has its own message.
  lemma MessageInjective(network: Network, entropy: Bytes32, other: Network, otherEntropy: Bytes32)
    ensures TagMessage(network, entropy) == TagMessage(other, otherEntropy) <==>
      network == other && entropy == otherEntropy
  {
    hide Ascii;
    var (m, n) := (TagMessage(network, entropy), TagMessage(other, otherEntropy));
    assert m[43] == (if network.Testnet? then 0 else 1) && n[43] == (if other.Testnet? then 0 else 1);
    assert m[44..] == entropy && n[44..] == otherEntropy;
  }

  // Some profile carries the HMAC of that network and entropy.
  ghost predicate HoldsMnemonic(c: Crypto, s: Store, network: Network, entropy: Bytes32) {
    exists i | 0 <= i < |s.profiles| ::
      s.profiles[i].duplicateTag == c.hmacSha256(s.registryKey, TagMessage(network, entropy))
  }

  lemma TakenExactly(c: Crypto, s: Store, network: Network, entropy: Bytes32)
    ensures TagTaken(s.profiles, DuplicateTag(c, s.registryKey, network, entropy)) <==>
      HoldsMnemonic(c, s, network, entropy)
  {
    hide DuplicateTag, TagMessage;
    TagExactly(c, s.registryKey, network, entropy);
  }

  // ----- creation

  ghost predicate ProfileDrawn(random: Random) {
    random.salt.Some? && random.nonce.Some?
  }

  lemma NewProfileOutcome(
    c: Crypto, registryKey: Bytes32, profileId: Bytes16, network: Network, entropy: Bytes32, password: seq<byte>,
    random: Random)
    requires ValidPassword(password)
    ensures var tag := DuplicateTag(c, registryKey, network, entropy);
      var r := NewEncryptedProfile(
        c, registryKey, profileId, network, tag, Payload(entropy, [], []), password, random);
      && (r.Ok? <==> ProfileDrawn(random))
      && (r.Err? ==> r == Err(RandomSourceFailure))
  {
    hide SealProfile, EncodePayload, PayloadWellFormed, DuplicateTag, Wire, Sort, PayloadToValue, ValidPassword;
    EmptyPayload(entropy);
    if ProfileDrawn(random) {
      var u := UnsealedProfile(profileId, network, DuplicateTag(c, registryKey, network, entropy), [],
        random.salt.value, random.nonce.value);
      UnsealedWellFormed(u);
      SealOutcome(c, registryKey, u, Payload(entropy, [], []), password, random.nonce);
    }
  }

  // Creation needs salt and nonce, a place among 128 profiles, and a Store that encodes.
  lemma CreateOutcome(
    c: Crypto, s: Store, profileId: Bytes16, network: Network, entropy: Bytes32, password: seq<byte>, random: Random)
    returns (p: Profile)
    requires StoreWellFormed(s) && profileId !in ProfileIds(s.profiles) && ValidPassword(password)
    ensures !ProfileDrawn(random) ==>
      AddProfile(c, s, profileId, network, entropy, password, random) == Err(RandomSourceFailure)
    ensures ProfileDrawn(random) ==>
      && (|s.profiles| < 128 ==> StoreWellFormed(WithProfile(s, p)) && PlainProfile(p) && p.index == [])
      && (|s.profiles| < 128 ==> |p.cipher.ciphertext| <= 40)
      && AddProfile(c, s, profileId, network, entropy, password, random) ==
        if |s.profiles| < 128 && SizeFits(WithProfile(s, p))
        then Ok(Mutation(Wire(StoreToValue(WithProfile(s, p))), ProfileInfo(profileId, network, 0)))
        else Err(SerializationFailure)
  {
    hide OpenProfile, ProfileWellFormed, StoreWellFormed, ProfileIds, EncodeStore, DuplicateTag, NewEncryptedProfile,
      PlainProfile, Insert, ValidPassword, ProfileDrawn, Wire, StoreToValue;
    var tag := DuplicateTag(c, s.registryKey, network, entropy);
    var r := NewEncryptedProfile(
      c, s.registryKey, profileId, network, tag, Payload(entropy, [], []), password, random);
    NewProfileOutcome(c, s.registryKey, profileId, network, entropy, password, random);
    p := Profile(profileId, network, ZERO32, Kdf(ZERO16, []), Cipher([0, 0, 0, 0, 0, 0, 0, 0, 0, 0, 0, 0], [], ZERO16, []),
      [], [], []);
    if r.Ok? {
      p := r.value;
      NewProfile(c, s.registryKey, profileId, network, entropy, password, random, p);
      if |s.profiles| < 128 {
        WithProfileWellFormed(s, p);
        AppendedEncoding(s, p);
        StoreEncoding(WithProfile(s, p));
      } else {
        FullStore(s, p);
      }
    }
  }

  lemma FullStore(s: Store, p: Profile)
    requires |s.profiles| >= 128
    ensures EncodeStore(s.(profiles := s.profiles + [p])) == Err(SerializationFailure)
  {
    hide Encode, StoreToValue;
  }

  // ----- restoring

  // The refusals of a restore, in their order.
  lemma RestoreExactly(
    c: Crypto, store: seq<byte>, mnemonic: seq<byte>, password: seq<byte>, network: Network, random: Random)
    ensures var r := RestoreProfile(c, store, mnemonic, password, network, random);
      var (d, entropy) := (DecodeStore(store), c.parseMnemonic(mnemonic));
      && (!ValidPassword(password) ==> r == Err(InvalidArgument))
      && (ValidPassword(password) && d.Err? ==> r == Err(d.error))
      && (ValidPassword(password) && d.Ok? && entropy.None? ==> r == Err(InvalidMnemonic))
      && (ValidPassword(password) && d.Ok? && entropy.Some? ==>
          && (r == Err(DuplicateProfile) <==> HoldsMnemonic(c, d.value, network, entropy.value))
          && (r == Err(RandomSourceFailure) <==>
              !HoldsMnemonic(c, d.value, network, entropy.value)
              && !(AnyFree(random.ids, ProfileIds(d.value.profiles)) && ProfileDrawn(random)))
          && (r.Ok? ==>
              && FirstFree(random.ids, ProfileIds(d.value.profiles), r.value.value.profileId)
              && r.value.value == ProfileInfo(r.value.value.profileId, network, 0)))
  {
    hide DecodeStore, ValidPassword, HoldsMnemonic, AddProfile, FreshId, ProfileIds, AnyFree, FirstFree, ProfileDrawn,
      DuplicateTag, StoreWellFormed, TagTaken;
    if ValidPassword(password) && DecodeStore(store).Ok? && c.parseMnemonic(mnemonic).Some? {
      var s, entropy := DecodeStore(store).value, c.parseMnemonic(mnemonic).value;
      StoreCodec(store, s);
      TakenExactly(c, s, network, entropy);
      FreshIdExactly(random.ids, ProfileIds(s.profiles));
      if FreshId(random.ids, ProfileIds(s.profiles)).Ok? {
        var id := FreshId(random.ids, ProfileIds(s.profiles)).value;
        var p := CreateOutcome(c, s, id, network, entropy, password, random);
      }
    }
  }

  // Otherwise the profile is created, if there are fewer than 128 and the Store has room.
  lemma RestoreSucceeds(
    c: Crypto, store: seq<byte>, s: Store, mnemonic: seq<byte>, entropy: Bytes32, password: seq<byte>, network: Network,
    random: Random) returns (id: Bytes16, p: Profile)
    requires ValidPassword(password) && DecodeStore(store) == Ok(s) && c.parseMnemonic(mnemonic) == Some(entropy)
    requires !HoldsMnemonic(c, s, network, entropy)
    requires AnyFree(random.ids, ProfileIds(s.profiles)) && ProfileDrawn(random)
    ensures FirstFree(random.ids, ProfileIds(s.profiles), id)
    ensures |s.profiles| < 128 ==>
      StoreWellFormed(WithProfile(s, p)) && PlainProfile(p) && p.index == [] && |p.cipher.ciphertext| <= 40
    ensures RestoreProfile(c, store, mnemonic, password, network, random) ==
      if |s.profiles| < 128 && SizeFits(WithProfile(s, p))
      then Ok(Mutation(Wire(StoreToValue(WithProfile(s, p))), ProfileInfo(id, network, 0)))
      else Err(SerializationFailure)
  {
    hide DecodeStore, ValidPassword, HoldsMnemonic, AddProfile, FreshId, ProfileIds, AnyFree, FirstFree, ProfileDrawn,
      DuplicateTag, StoreWellFormed, TagTaken, PlainProfile, Wire, StoreToValue, SizeFits, WithProfile;
    StoreCodec(store, s);
    TakenExactly(c, s, network, entropy);
    FreshIdExactly(random.ids, ProfileIds(s.profiles));
    id := FreshId(random.ids, ProfileIds(s.profiles)).value;
    p := CreateOutcome(c, s, id, network, entropy, password, random);
  }

  // The profile restored is the one new profile of the Store that is returned, under the id drawn
  // and on the network asked for, and opens under the password to the entropy of the mnemonic.
  lemma RestoredOpens(
    c: Crypto, store: seq<byte>, mnemonic: seq<byte>, password: seq<byte>, network: Network, random: Random,
    m: Mutation<ProfileInfo>) returns (s: Store, entropy: Bytes32, p: Profile, k: nat, t: Store)
    requires RestoreProfile(c, store, mnemonic, password, network, random) == Ok(m)
    ensures DecodeStore(store) == Ok(s) && c.parseMnemonic(mnemonic) == Some(entropy)
    ensures FirstFree(random.ids, ProfileIds(s.profiles), m.value.profileId)
    ensures IsNewProfile(c, s, t, k, p, m.value, network, entropy, password)
    ensures DecodeStore(m.store) == Ok(t)
  {
    hide DecodeStore, ValidPassword, AddProfile, FreshId, ProfileIds, DuplicateTag, TagTaken, FirstFree, IsNewProfile,
      RestoreProfile;
    s, entropy := RestoreReads(c, store, mnemonic, password, network, random);
    var id := RestoredId(c, store, s, mnemonic, entropy, password, network, random, m);
    p, k, t := AddedOpens(c, store, s, id, network, entropy, password, random, m);
    RestoreExactly(c, store, mnemonic, password, network, random);
  }

  lemma RestoreReads(
    c: Crypto, store: seq<byte>, mnemonic: seq<byte>, password: seq<byte>, network: Network, random: Random)
    returns (s: Store, entropy: Bytes32)
    requires RestoreProfile(c, store, mnemonic, password, network, random).Ok?
    ensures ValidPassword(password) && DecodeStore(store) == Ok(s) && c.parseMnemonic(mnemonic) == Some(entropy)
  {
    hide DecodeStore, ValidPassword, AddProfile, FreshId, ProfileIds, DuplicateTag, TagTaken;
    s, entropy := DecodeStore(store).value, c.parseMnemonic(mnemonic).value;
  }

  // `t` is `s` with the profile `p` at its place, and `p` is as told by `info`.
  ghost predicate IsNewProfile(
    c: Crypto, s: Store, t: Store, k: nat, p: Profile, info: ProfileInfo, network: Network, entropy: Bytes32,
    password: seq<byte>)
  {
    && k <= |s.profiles| && t == s.(profiles := s.profiles[..k] + [p] + s.profiles[k..])
    && info == ProfileInfo(p.profileId, network, 0)
    && p.network == network && p.index == [] && p.aadIndex == []
    && p.duplicateTag == c.hmacSha256(s.registryKey, TagMessage(network, entropy))
    && Authenticate(c, t, p.profileId, password) == Ok(Payload(entropy, [], []))
  }

  lemma AddedOpens(
    c: Crypto, store: seq<byte>, s: Store, id: Bytes16, network: Network, entropy: Bytes32, password: seq<byte>,
    random: Random, m: Mutation<ProfileInfo>) returns (p: Profile, k: nat, t: Store)
    requires DecodeStore(store) == Ok(s) && id !in ProfileIds(s.profiles)
    requires AddProfile(c, s, id, network, entropy, password, random) == Ok(m)
    ensures m.value.profileId == id && IsNewProfile(c, s, t, k, p, m.value, network, entropy, password)
    ensures DecodeStore(m.store) == Ok(t)
  {
    hide DecodeStore, AddProfile, ProfileIds, DuplicateTag, StoreWellFormed, EncodeStore, OpenProfile, Authenticate,
      TagMessage, Insert;
    StoreCodec(store, s);
    p, k := AddedProfile(c, s, id, network, entropy, password, random, m);
    t := WithProfile(s, p);
    TagExactly(c, s.registryKey, network, entropy);
  }

  // ----- finalizing

  lemma FinalizeDuplicate(c: Crypto, store: seq<byte>, pending: seq<byte>, password: seq<byte>, random: Random)
    ensures FinalizeGeneratedProfile(c, store, pending, password, random) == Err(DuplicateProfile) ==>
      && DecodeStore(store).Ok? && ParsePending(pending).Ok?
      && var (s, p) := (DecodeStore(store).value, ParsePending(pending).value);
      var o := c.unseal(c.argon2id(password, p.salt), p.nonce, p.tag, PendingAad(p), p.ciphertext);
      o.Some? && |o.value| == 32 && HoldsMnemonic(c, s, p.network, o.value)
  {
    hide DecodeStore, ValidPassword, HoldsMnemonic, AddProfile, ProfileIds, DuplicateTag, StoreWellFormed, TagTaken,
      PendingAad, ParsePending;
    if FinalizeGeneratedProfile(c, store, pending, password, random) == Err(DuplicateProfile) {
      DecodeErrors(store);
      ParsePendingErrors(pending);
      var (s, p) := (DecodeStore(store).value, ParsePending(pending).value);
      var entropy := c.unseal(c.argon2id(password, p.salt), p.nonce, p.tag, PendingAad(p), p.ciphertext).value;
      StoreCodec(store, s);
      TakenExactly(c, s, p.network, entropy);
      if p.profileId !in ProfileIds(s.profiles) {
        var _ := CreateOutcome(c, s, p.profileId, p.network, entropy, password, random);
      }
    }
  }

  lemma ParsePendingErrors(pending: seq<byte>)
    ensures ParsePending(pending).Err? ==> ParsePending(pending) == Err(PendingProfileInvalid)
  {
  }

  function Unsealed(c: Crypto, p: Envelope, password: seq<byte>): Option<seq<byte>> {
    c.unseal(c.argon2id(password, p.salt), p.nonce, p.tag, PendingAad(p), p.ciphertext)
  }

  // What is refused before the envelope opens, in this order.
  lemma FinalizeRefusals(c: Crypto, store: seq<byte>, pending: seq<byte>, password: seq<byte>, random: Random)
    ensures var r := FinalizeGeneratedProfile(c, store, pending, password, random);
      var (d, e) := (DecodeStore(store), ParsePending(pending));
      && (!ValidPassword(password) ==> r == Err(InvalidArgument))
      && (ValidPassword(password) && d.Err? ==> r == Err(d.error))
      && (ValidPassword(password) && d.Ok? && (e.Err? || e.value.targetStoreHash != c.sha256(store)) ==>
          r == Err(PendingProfileInvalid))
      && (ValidPassword(password) && d.Ok? && e.Ok? && e.value.targetStoreHash == c.sha256(store) ==>
          (Unsealed(c, e.value, password).None? ==> r == Err(AuthenticationFailed)))
  {
    hide DecodeStore, ValidPassword, PendingAad, ParsePending;
    ParsePendingErrors(pending);
  }

  // What finalizing does with an envelope that opens.
  lemma FinalizeExactly(
    c: Crypto, store: seq<byte>, s: Store, pending: seq<byte>, p: Envelope, password: seq<byte>, entropy: Bytes32,
    random: Random)
    requires ValidPassword(password) && DecodeStore(store) == Ok(s) && ParsePending(pending) == Ok(p)
    requires p.targetStoreHash == c.sha256(store)
    requires c.unseal(c.argon2id(password, p.salt), p.nonce, p.tag, PendingAad(p), p.ciphertext) == Some(entropy)
    ensures var r := FinalizeGeneratedProfile(c, store, pending, password, random);
      && (r == Err(DuplicateProfile) <==> HoldsMnemonic(c, s, p.network, entropy))
      && (r == Err(PendingProfileInvalid) <==>
          !HoldsMnemonic(c, s, p.network, entropy) && p.profileId in ProfileIds(s.profiles))
      && (r.Ok? ==> r.value.value == ProfileInfo(p.profileId, p.network, 0))
  {
    hide DecodeStore, ValidPassword, HoldsMnemonic, AddProfile, ProfileIds, DuplicateTag, StoreWellFormed, TagTaken,
      PendingAad, ParsePending;
    StoreCodec(store, s);
    TakenExactly(c, s, p.network, entropy);
    if p.profileId !in ProfileIds(s.profiles) {
      var _ := CreateOutcome(c, s, p.profileId, p.network, entropy, password, random);
    }
  }

  lemma FinalizedIsNew(
    c: Crypto, store: seq<byte>, pending: seq<byte>, password: seq<byte>, random: Random, m: Mutation<ProfileInfo>)
    returns (s: Store, e: Envelope, entropy: Bytes32, p: Profile, k: nat, t: Store)
    requires FinalizeGeneratedProfile(c, store, pending, password, random) == Ok(m)
    ensures DecodeStore(store) == Ok(s) && ParsePending(pending) == Ok(e)
    ensures e.targetStoreHash == c.sha256(store) && m.value.profileId == e.profileId
    ensures c.unseal(c.argon2id(password, e.salt), e.nonce, e.tag, PendingAad(e), e.ciphertext) == Some(entropy)
    ensures IsNewProfile(c, s, t, k, p, m.value, e.network, entropy, password)
    ensures DecodeStore(m.store) == Ok(t)
  {
    hide DecodeStore, ValidPassword, AddProfile, ProfileIds, DuplicateTag, TagTaken, IsNewProfile, ParsePending,
      PendingAad, FinalizeGeneratedProfile;
    s, e, entropy := FinalizedOpens(c, store, pending, password, random, m);
    p, k, t := AddedOpens(c, store, s, e.profileId, e.network, entropy, password, random, m);
  }

  // ----- the other network

  ghost predicate Separates(c: Crypto, registryKey: Bytes32, entropies: set<Bytes32>) {
    forall e, f, m, n | e in entropies && f in entropies &&
      c.hmacSha256(registryKey, TagMessage(m, e)) == c.hmacSha256(registryKey, TagMessage(n, f)) :: m == n && e == f
  }

  // A mnemonic restored on one network is not refused as a duplicate on the other one, unless it
  // was there already or the HMAC of the two messages is the same.
  lemma OtherNetwork(
    c: Crypto, store: seq<byte>, s: Store, mnemonic: seq<byte>, entropy: Bytes32, password: seq<byte>, network: Network,
    random: Random, m: Mutation<ProfileInfo>, other: Network, again: seq<byte>, later: Random)
    requires DecodeStore(store) == Ok(s) && c.parseMnemonic(mnemonic) == Some(entropy)
    requires RestoreProfile(c, store, mnemonic, password, network, random) == Ok(m)
    requires other != network && Separates(c, s.registryKey, {entropy})
    ensures DecodeStore(m.store).Ok? && DecodeStore(m.store).value.registryKey == s.registryKey
    ensures HoldsMnemonic(c, DecodeStore(m.store).value, other, entropy) <==> HoldsMnemonic(c, s, other, entropy)
    ensures HoldsMnemonic(c, DecodeStore(m.store).value, network, entropy)
    ensures ValidPassword(again) ==>
      (RestoreProfile(c, m.store, mnemonic, again, other, later) == Err(DuplicateProfile) <==>
        HoldsMnemonic(c, s, other, entropy))
  {
    hide DecodeStore, ValidPassword, AddProfile, FreshId, ProfileIds, DuplicateTag, StoreWellFormed, TagTaken,
      TagMessage, PlainProfile, EncodeStore, OpenProfile, RestoreProfile, HoldsMnemonic, Authenticate, WithProfile;
    var id := RestoredId(c, store, s, mnemonic, entropy, password, network, random, m);
    StoreCodec(store, s);
    var p, k := AddedProfile(c, s, id, network, entropy, password, random, m);
    var t := WithProfile(s, p);
    SameRegistry(s, p);
    TagExactly(c, s.registryKey, network, entropy);
    assert entropy in {entropy};
    TagsAfter(c, s, t, p, k, other, entropy);
    TagsAfter(c, s, t, p, k, network, entropy);
    RestoreExactly(c, m.store, mnemonic, again, other, later);
  }

  lemma SameRegistry(s: Store, p: Profile)
    ensures WithProfile(s, p).registryKey == s.registryKey
  {
  }

  lemma RestoredId(
    c: Crypto, store: seq<byte>, s: Store, mnemonic: seq<byte>, entropy: Bytes32, password: seq<byte>, network: Network,
    random: Random, m: Mutation<ProfileInfo>) returns (id: Bytes16)
    requires DecodeStore(store) == Ok(s) && c.parseMnemonic(mnemonic) == Some(entropy)
    requires RestoreProfile(c, store, mnemonic, password, network, random) == Ok(m)
    ensures id !in ProfileIds(s.profiles) && AddProfile(c, s, id, network, entropy, password, random) == Ok(m)
  {
    hide DecodeStore, ValidPassword, AddProfile, FreshId, ProfileIds, DuplicateTag, TagTaken;
    id := FreshId(random.ids, ProfileIds(s.profiles)).value;
  }

  lemma TagsAfter(c: Crypto, s: Store, t: Store, p: Profile, k: nat, network: Network, entropy: Bytes32)
    requires k <= |s.profiles| && t.registryKey == s.registryKey
    requires t.profiles == s.profiles[..k] + [p] + s.profiles[k..]
    ensures HoldsMnemonic(c, t, network, entropy) <==>
      || HoldsMnemonic(c, s, network, entropy)
      || p.duplicateTag == c.hmacSha256(s.registryKey, TagMessage(network, entropy))
  {
    hide TagMessage;
    var tag := c.hmacSha256(s.registryKey, TagMessage(network, entropy));
    assert t.profiles[k] == p;
    if i :| 0 <= i < |s.profiles| && s.profiles[i].duplicateTag == tag {
      assert t.profiles[if i < k then i else i + 1] == s.profiles[i];
    }
    if i :| 0 <= i < |t.profiles| && t.profiles[i].duplicateTag == tag && i != k {
      assert t.profiles[i] == s.profiles[if i < k then i else i - 1];
    }
  }

  // ----- what a Store that is refused is refused with

  ghost predicate StoreError(e: ErrorCode) {
    e == InvalidStore || e == UnsupportedStoreVersion || e == UnsupportedProfileSchemaVersion
  }

  lemma DecodeErrors(bytes: seq<byte>)
    ensures DecodeStore(bytes).Err? ==> StoreError(DecodeStore(bytes).error)
  {
    hide Decode, ParseProfiles, UnknownAllowed, MapValue, UnknownFields;
    if |bytes| <= MAX_STORE_BYTES && Decode(bytes, WALLET_STORE_LIMITS).Ok? {
      var v := Decode(bytes, WALLET_STORE_LIMITS).value;
      if v.Map? && MapValue(v.entries, 3).Some? && MapValue(v.entries, 3).value.Array? {
        ProfilesErrors(MapValue(v.entries, 3).value.items);
      }
    }
  }

  lemma {:induction false} ProfilesErrors(values: seq<Value>)
    ensures ParseProfiles(values).Err? ==> StoreError(ParseProfiles(values).error)
  {
    hide ParseProfile, Less;
    if values != [] {
      ProfilesErrors(values[..|values| - 1]);
      ProfileErrors(values[|values| - 1]);
    }
  }

  lemma ProfileErrors(v: Value)
    ensures ParseProfile(v).Err? ==> StoreError(ParseProfile(v).error)
  {
    hide ParseIndex, UnknownAllowed, MapValue, UnknownFields, ParseKdf, ParseCipher;
    if v.Map? {
      PartErrors(MapValue(v.entries, 4), MapValue(v.entries, 5));
      if MapValue(v.entries, 6).Some? && MapValue(v.entries, 6).value.Array? {
        IndexErrors(MapValue(v.entries, 6).value.items);
      }
    }
  }

  lemma PartErrors(kdf: Option<Value>, cipher: Option<Value>)
    ensures ParseKdf(kdf).Err? ==> ParseKdf(kdf) == Err(InvalidStore)
    ensures ParseCipher(cipher).Err? ==> ParseCipher(cipher) == Err(InvalidStore)
  {
    hide UnknownAllowed, MapValue, UnknownFields;
  }

  lemma {:induction false} IndexErrors(values: seq<Value>)
    ensures ParseIndex(values).Err? ==> ParseIndex(values) == Err(InvalidStore)
  {
    hide UnknownAllowed, MapValue, UnknownFields, Less;
    if values != [] {
      IndexErrors(values[..|values| - 1]);
    }
  }
}
