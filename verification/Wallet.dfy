// The wallet's mutable objects and its operations as they run: decode, change in place, encode.
// Every operation is proved to return what `StoreOps` says of its input bytes.
module Wallet {
  import opened Wrappers
  import opened Bits
  import opened Bytes
  import opened Sorting
  import opened Cbor
  import opened WalletTypes
  import opened WalletCrypto
  import opened StoreFormat
  import opened StoreOps
  import opened StoreDecoding
  import CborCodec
  import Pending

  class ProfileEnvelope {
    const profileId: Bytes16
    const network: Network
    const duplicateTag: Bytes32
    var kdf: Kdf
    var cipher: Cipher
    var index: seq<IndexEntry>
    var aadIndex: seq<Value>
    const unknown: seq<Entry>

    constructor (p: Profile)
      ensures View() == p
    {
      profileId := p.profileId;
      network := p.network;
      duplicateTag := p.duplicateTag;
      kdf := p.kdf;
      cipher := p.cipher;
      index := p.index;
      aadIndex := p.aadIndex;
      unknown := p.unknown;
    }

    function View(): Profile
      reads this
    {
      Profile(profileId, network, duplicateTag, kdf, cipher, index, aadIndex, unknown)
    }

    // The common end of `reencrypt_profile` and `new_encrypted_profile`.
    method Seal(c: Crypto, registryKey: Bytes32, payload: Payload, password: seq<byte>, drawn: Option<Bytes12>)
      returns (r: Parse<()>)
      modifies `cipher
      ensures match SealProfile(c, registryKey, old(View()), payload, password, drawn)
        case Ok(p) => r.Ok? && View() == p
        case Err(e) => r == Err(e)
    {
      hide Aad, EncodePayload, DeriveEncryptionKey;
      var key :- DeriveEncryptionKey(c, password, kdf.salt);
      var nonce :- Drawn(drawn);
      cipher := cipher.(nonce := nonce);
      assert Aad(registryKey, View()) == Aad(registryKey, old(View())) by {
        AadIgnoresCipher(registryKey, View(), old(View()));
      }
      var aad :- Aad(registryKey, View());
      var bytes :- EncodePayload(payload);
      var box := c.seal(key, nonce, aad, bytes);
      cipher := cipher.(ciphertext := box.ciphertext);
      cipher := cipher.(tag := box.tag);
      r := Ok(());
    }

    // `reencrypt_profile`.
    method Reencrypt(c: Crypto, registryKey: Bytes32, payload: Payload, password: seq<byte>, changePassword: bool,
      random: Random) returns (r: Parse<()>)
      modifies this
      ensures match ReencryptProfile(c, registryKey, old(View()), payload, password, changePassword, random)
        case Ok(p) => r.Ok? && View() == p
        case Err(e) => r == Err(e)
    {
      hide SealProfile, IndexFromPayload, MergeIndex;
      var entries := IndexFromPayload(payload);
      aadIndex := MergeIndexValues(entries, aadIndex);
      index := entries;
      if changePassword {
        var salt :- Drawn(random.salt);
        kdf := kdf.(salt := salt);
      }
      r := Seal(c, registryKey, payload, password, random.nonce);
    }
  }

  lemma AadIgnoresCipher(registryKey: Bytes32, p: Profile, q: Profile)
    requires p == q.(cipher := p.cipher)
    ensures Aad(registryKey, p) == Aad(registryKey, q)
  {
    hide Encode;
  }

  // The inner loop of `index_values_from_payload`: the cursor passes every value without a key
  // id or with a smaller one.
  method SkipTo(existing: seq<Value>, start: nat, keyId: Bytes16) returns (at: nat)
    requires start <= |existing|
    ensures at <= |existing| && existing[at..] == SkipSmaller(existing[start..], keyId)
  {
    hide WireKeyId, Less;
    at := start;
    while at < |existing| && (WireKeyId(existing[at]).None? || Less(WireKeyId(existing[at]).value, keyId))
      invariant start <= at <= |existing|
      invariant SkipSmaller(existing[start..], keyId) == SkipSmaller(existing[at..], keyId)
    {
      assert existing[at..][1..] == existing[at + 1..];
      at := at + 1;
    }
    assert at < |existing| ==> existing[at..][0] == existing[at];
  }

  // `index_values_from_payload`: the peekable cursor `at` moves over `existing` once.
  method MergeIndexValues(index: seq<IndexEntry>, existing: seq<Value>) returns (values: seq<Value>)
    ensures values == MergeIndex(index, existing)
  {
    hide UnknownFields, IndexKnown, WireKeyId, SkipSmaller, UnknownAtCursor;
    values := [];
    var at := 0;
    for i := 0 to |index|
      invariant 0 <= at <= |existing|
      invariant values + MergeIndex(index[i..], existing[at..]) == MergeIndex(index, existing)
    {
      ghost var start := at;
      at := SkipTo(existing, at, index[i].keyId);
      var unknown := UnknownAt(existing, at, index[i].keyId);
      MergeStep(index, existing, i, start, at);
      values := values + [Map(IndexKnown(index[i]) + unknown)];
    }
    assert index[|index|..] == [];
  }

  method UnknownAt(existing: seq<Value>, at: nat, keyId: Bytes16) returns (unknown: seq<Entry>)
    requires at <= |existing|
    ensures unknown == UnknownAtCursor(existing[at..], keyId)
  {
    hide UnknownFields;
    unknown := [];
    if at < |existing| && WireKeyId(existing[at]) == Some(keyId) {
      unknown := UnknownFields(existing[at].entries, 2);
    }
  }

  lemma MergeStep(index: seq<IndexEntry>, existing: seq<Value>, i: nat, start: nat, at: nat)
    requires i < |index| && start <= |existing| && at <= |existing|
    requires existing[at..] == SkipSmaller(existing[start..], index[i].keyId)
    ensures MergeIndex(index[i..], existing[start..]) ==
      [Map(IndexKnown(index[i]) + UnknownAtCursor(existing[at..], index[i].keyId))]
      + MergeIndex(index[i + 1..], existing[at..])
  {
    hide UnknownFields, IndexKnown, WireKeyId, SkipSmaller, UnknownAtCursor;
    assert index[i..][0] == index[i] && index[i..][1..] == index[i + 1..];
  }

  // ----- comparison of secrets

  // `secret_bytes_equal`: whether all bytes agree, with no early exit.
  method SecretBytesEqual(left: Bytes32, right: Bytes32) returns (equal: bool)
    ensures equal <==> left == right
  {
    hide Xor, Or;
    var difference := 0;
    for i := 0 to 32
      invariant difference == 0 <==> left[..i] == right[..i]
    {
      XorIsZero(left[i], right[i]);
      OrIsZero(difference, Xor(left[i], right[i]));
      difference := Or(difference, Xor(left[i], right[i]));
      assert left[..i + 1] == left[..i] + [left[i]] && right[..i + 1] == right[..i] + [right[i]];
    }
    assert left[..32] == left && right[..32] == right;
    equal := difference == 0;
  }

  // `validate_private_key`: the length, and then every byte, with no early exit. (A public key
  // can be made of any key that passes.)
  method IsValidKey(key: seq<byte>) returns (valid: bool)
    ensures valid <==> ValidPrivateKey(key)
  {
    hide Or;
    if |key| != 32 {
      return false;
    }
    var nonZero := 0;
    for i := 0 to 32
      invariant nonZero == 0 <==> forall j | 0 <= j < i :: key[j] == 0
    {
      OrIsZero(nonZero, key[i]);
      nonZero := Or(nonZero, key[i]);
    }
    valid := nonZero != 0;
  }

  // `ensure_not_duplicate`.
  method IsDuplicate(keys: seq<KeyRecord>, chain: Chain, privateKey: Bytes32) returns (found: bool)
    ensures found <==> HasKey(keys, chain, privateKey)
  {
    found := false;
    for i := 0 to |keys|
      invariant found <==> exists j :: 0 <= j < i && keys[j].chain == chain && keys[j].privateKey == privateKey
    {
      var equal := SecretBytesEqual(keys[i].privateKey, privateKey);
      found := found || (keys[i].chain == chain && equal);
    }
  }

  // ----- the Store in memory

  class WalletStore {
    const registryKey: Bytes32
    var profiles: seq<ProfileEnvelope>
    const unknown: seq<Entry>

    ghost predicate Valid()
      reads this
    {
      forall i, j | 0 <= i < j < |profiles| :: profiles[i] != profiles[j]
    }

    function View(): Store
      reads this, profiles
    {
      Store(registryKey, Views(profiles), unknown)
    }

    constructor (s: Store)
      ensures Valid() && fresh(profiles) && View() == s
    {
      registryKey := s.registryKey;
      unknown := s.unknown;
      profiles := [];
      new;
      for i := 0 to |s.profiles|
        invariant Valid() && fresh(profiles) && |profiles| == i && Views(profiles) == s.profiles[..i]
      {
        var p := new ProfileEnvelope(s.profiles[i]);
        ghost var before := profiles;
        profiles := profiles + [p];
        assert Views(profiles) == Views(before) + [s.profiles[i]];
      }
      assert s.profiles[..|s.profiles|] == s.profiles;
    }

    // `find_profile` and `profile_index`.
    method Position(profileId: Bytes16) returns (r: Parse<nat>)
      requires Valid()
      ensures r == ProfileIndex(View().profiles, profileId)
      ensures r.Ok? ==> r.value < |profiles|
    {
      for i := 0 to |profiles|
        invariant forall j | 0 <= j < i :: profiles[j].profileId != profileId
      {
        if profiles[i].profileId == profileId {
          FirstWithId(View().profiles, profileId, i);
          return Ok(i);
        }
      }
      NoneWithId(View().profiles, profileId);
      r := Err(ProfileNotFound);
    }

    // `authenticate_profile`.
    method Authenticate(c: Crypto, profileId: Bytes16, password: seq<byte>) returns (r: Parse<Payload>)
      requires Valid()
      ensures r == StoreOps.Authenticate(c, View(), profileId, password)
    {
      hide ProfileIndex, Aad, ParsePayload, DeriveEncryptionKey, ValidateAuthenticated;
      var i :- Position(profileId);
      var p := profiles[i].View();
      var aad :- Aad(registryKey, p);
      var key :- DeriveEncryptionKey(c, password, p.kdf.salt);
      var plaintext := c.unseal(key, p.cipher.nonce, p.cipher.tag, aad, p.cipher.ciphertext);
      if plaintext.None? {
        return Err(AuthenticationFailed);
      }
      var payload :- ReadPayloadBytes(plaintext.value);
      var valid := IsConsistent(c, registryKey, p, payload);
      r := if valid then Ok(payload) else Err(InvalidStore);
    }

    // The loop over all duplicate tags.
    method HasTag(tag: Bytes32) returns (found: bool)
      requires Valid()
      ensures found <==> TagTaken(View().profiles, tag)
    {
      found := false;
      for i := 0 to |profiles|
        invariant found <==> exists j :: 0 <= j < i && profiles[j].duplicateTag == tag
      {
        var equal := SecretBytesEqual(profiles[i].duplicateTag, tag);
        found := found || equal;
      }
      var views := View().profiles;
      if found {
        var j :| 0 <= j < |profiles| && profiles[j].duplicateTag == tag;
        assert views[j].duplicateTag == tag;
      }
    }

    method Reencrypt(c: Crypto, i: nat, payload: Payload, password: seq<byte>, changePassword: bool, random: Random)
      returns (r: Parse<()>)
      requires Valid() && i < |profiles|
      modifies profiles[i]
      ensures Valid()
      ensures match StoreOps.Reencrypt(c, old(View()), i, payload, password, changePassword, random)
        case Ok(s) => r.Ok? && View() == s
        case Err(e) => r == Err(e)
    {
      hide ReencryptProfile;
      ghost var before := Views(profiles);
      r := profiles[i].Reencrypt(c, registryKey, payload, password, changePassword, random);
      assert Views(profiles) == before[i := profiles[i].View()];
    }

    method Push(p: ProfileEnvelope)
      requires Valid() && p !in profiles
      modifies `profiles
      ensures Valid() && profiles == old(profiles) + [p]
      ensures View() == old(View()).(profiles := old(View().profiles) + [p.View()])
    {
      ghost var before := Views(profiles);
      profiles := profiles + [p];
      assert Views(profiles) == before + [p.View()];
    }

    method Remove(i: nat)
      requires Valid() && i < |profiles|
      modifies `profiles
      ensures Valid()
      ensures var was := old(View()); View() == was.(profiles := was.profiles[..i] + was.profiles[i + 1..])
    {
      ghost var before := Views(profiles);
      profiles := profiles[..i] + profiles[i + 1..];
      assert Views(profiles) == before[..i] + before[i + 1..];
    }

    method Encoded() returns (r: Parse<seq<byte>>)
      requires Valid()
      ensures r == EncodeStore(View())
    {
      hide Encode, StoreToValue;
      if |profiles| > MAX_PROFILES {
        return Err(SerializationFailure);
      }
      var encoded := CborCodec.EncodeValue(StoreToValue(View()));
      if encoded.Err? || |encoded.value| > MAX_STORE_BYTES {
        return Err(SerializationFailure);
      }
      r := Ok(encoded.value);
    }
  }

  function Views(profiles: seq<ProfileEnvelope>): (r: seq<Profile>)
    reads profiles
    ensures |r| == |profiles|
    ensures forall i | 0 <= i < |profiles| :: r[i] == profiles[i].View()
  {
    seq(|profiles|, i requires 0 <= i < |profiles| reads profiles => profiles[i].View())
  }

  lemma {:induction false} FirstWithId(profiles: seq<Profile>, profileId: Bytes16, i: nat)
    requires i < |profiles| && profiles[i].profileId == profileId
    requires forall j | 0 <= j < i :: profiles[j].profileId != profileId
    ensures ProfileIndex(profiles, profileId) == Ok(i)
  {
    if i > 0 {
      FirstWithId(profiles[1..], profileId, i - 1);
    }
  }

  lemma {:induction false} NoneWithId(profiles: seq<Profile>, profileId: Bytes16)
    requires forall j | 0 <= j < |profiles| :: profiles[j].profileId != profileId
    ensures ProfileIndex(profiles, profileId) == Err(ProfileNotFound)
  {
    if profiles != [] {
      NoneWithId(profiles[1..], profileId);
    }
  }

  // `validate_authenticated_profile`, with both lists scanned at once.
  method IsConsistent(c: Crypto, registryKey: Bytes32, p: Profile, payload: Payload) returns (valid: bool)
    ensures valid <==> ValidateAuthenticated(c, registryKey, p, payload)
  {
    hide DuplicateTag, ValidPrivateKey;
    var equal := SecretBytesEqual(DuplicateTag(c, registryKey, p.network, payload.entropy), p.duplicateTag);
    if !equal || |p.index| != |payload.keys| {
      return false;
    }
    for i := 0 to |p.index|
      invariant forall j | 0 <= j < i :: p.index[j] == IndexOfKey(payload.keys[j])
    {
      if p.index[i].keyId != payload.keys[i].keyId || payload.keys[i].chain != p.index[i].chain {
        assert p.index[i] != IndexOfKeys(payload.keys)[i];
        return false;
      }
    }
    assert p.index == IndexOfKeys(payload.keys);
    for i := 0 to |payload.keys|
      invariant forall j | 0 <= j < i :: ValidPrivateKey(payload.keys[j].privateKey)
    {
      var good := IsValidKey(payload.keys[i].privateKey);
      if !good {
        return false;
      }
    }
    valid := true;
  }

  // ----- draws from the random source

  // `new_profile_id_with` and `new_key_id`.
  method NewId(ids: seq<Bytes16>, taken: seq<Bytes16>) returns (r: Parse<Bytes16>)
    ensures r == FreshId(ids, taken)
  {
    for i := 0 to |ids|
      invariant FreshId(ids, taken) == FreshId(ids[i..], taken)
    {
      if ids[i] !in taken {
        return Ok(ids[i]);
      }
      assert ids[i..][1..] == ids[i + 1..];
    }
    r := Err(RandomSourceFailure);
  }

  // `generate_private_key_with`.
  method NewPrivateKey(candidates: seq<Bytes32>) returns (r: Parse<Bytes32>)
    ensures r == GeneratePrivateKey(candidates)
  {
    hide ValidPrivateKey;
    for i := 0 to |candidates|
      invariant GeneratePrivateKey(candidates) == GeneratePrivateKey(candidates[i..])
    {
      var good := IsValidKey(candidates[i]);
      if good {
        return Ok(candidates[i]);
      }
      assert candidates[i..][1..] == candidates[i + 1..];
    }
    r := Err(RandomSourceFailure);
  }

  // ----- hierarchical derivation

  // The child data buffer of one hardened step.
  method HardenedChildData(node: Bytes64, identifier: nat) returns (data: seq<byte>)
    ensures data == ChildData(node, identifier)
  {
    hide Or;
    var childData := new byte[37];
    childData[0] := 0;
    forall i | 0 <= i < 32 {
      childData[1 + i] := node[i];
    }
    var index := ToBigEndian(Or(identifier, 0x8000_0000), 4);
    forall i | 0 <= i < 4 {
      childData[33 + i] := index[i];
    }
    data := childData[..];
    assert data[0] == 0 && data[1..33] == node[..32] && data[33..] == index;
    assert data == [data[0]] + data[1..33] + data[33..];
  }

  // `derive_private_key`: one HMAC for the root and one for each hardened identifier.
  method PrivateKeyAt(c: Crypto, entropy: Bytes32, chain: Chain, network: Network, accountIndex: u64)
    returns (r: Parse<Bytes32>)
    ensures r == DerivePrivateKey(c, entropy, chain, network, accountIndex)
  {
    hide ChildData, ValidPrivateKey, Reverse;
    if accountIndex > MAX_ACCOUNT_INDEX {
      return Err(InvalidAccountIndex);
    }
    var path := DerivationPath(chain, network, accountIndex);
    ghost var root := c.hmacSha512(RootKey(chain), c.seed(entropy));
    var node := c.hmacSha512(RootKey(chain), c.seed(entropy));
    for i := 0 to |path|
      invariant node == NodeAt(c, root, path[..i])
    {
      var childData := HardenedChildData(node, path[i]);
      node := c.hmacSha512(node[32..], childData);
      assert path[..i + 1][..i] == path[..i];
    }
    assert path[..|path|] == path;
    var key: Bytes32 := node[..32];
    if chain.Nem? {
      key := Reverse(key);
    }
    var valid := IsValidKey(key);
    r := if valid then Ok(key) else Err(InvalidPrivateKey);
  }

  // ----- the operations

  method Open(store: seq<byte>) returns (r: Parse<WalletStore>)
    ensures r.Ok? ==> fresh(r.value) && fresh(r.value.profiles) && r.value.Valid()
    ensures r.Ok? ==> DecodeStore(store) == Ok(r.value.View())
    ensures r.Err? ==> DecodeStore(store) == Err(r.error)
  {
    hide DecodeStore;
    var s :- ReadStoreBytes(store);
    var wallet := new WalletStore(s);
    r := Ok(wallet);
  }

  // The common end of restore and finalize.
  method AddNewProfile(c: Crypto, wallet: WalletStore, profileId: Bytes16, network: Network, entropy: Bytes32,
    password: seq<byte>, random: Random) returns (r: Parse<Mutation<ProfileInfo>>)
    requires wallet.Valid()
    modifies wallet
    ensures r == AddProfile(c, old(wallet.View()), profileId, network, entropy, password, random)
  {
    hide SealProfile, IndexFromPayload, EncodeStore, DuplicateTag;
    var payload := Payload(entropy, [], []);
    var tag := DuplicateTag(c, wallet.registryKey, network, entropy);
    var salt :- Drawn(random.salt);
    var nonce :- Drawn(random.nonce);
    var p := new ProfileEnvelope(UnsealedProfile(profileId, network, tag, IndexFromPayload(payload), salt, nonce));
    var _ :- p.Seal(c, wallet.registryKey, payload, password, Some(nonce));
    wallet.Push(p);
    var bytes :- wallet.Encoded();
    r := Ok(Mutation(bytes, ProfileInfo(p.profileId, p.network, |p.index|)));
  }

  method RestoreProfile(c: Crypto, store: seq<byte>, mnemonic: seq<byte>, password: seq<byte>, network: Network,
    random: Random) returns (r: Parse<Mutation<ProfileInfo>>)
    ensures r == StoreOps.RestoreProfile(c, store, mnemonic, password, network, random)
  {
    hide DecodeStore, AddProfile, DuplicateTag, TagTaken, FreshId, ValidPassword, Views;
    if !ValidPassword(password) {
      return Err(InvalidArgument);
    }
    var wallet :- Open(store);
    var entropy := c.parseMnemonic(mnemonic);
    if entropy.None? {
      return Err(InvalidMnemonic);
    }
    var taken := wallet.HasTag(DuplicateTag(c, wallet.registryKey, network, entropy.value));
    if taken {
      return Err(DuplicateProfile);
    }
    var profileId :- NewId(random.ids, ProfileIds(wallet.View().profiles));
    r := AddNewProfile(c, wallet, profileId, network, entropy.value, password, random);
  }

  // `take_array`.
  method TakeArray(bytes: seq<byte>, offset: nat, count: nat) returns (r: Parse<seq<byte>>, next: nat)
    ensures offset + count <= |bytes| ==> r == Ok(bytes[offset..offset + count]) && next == offset + count
    ensures offset + count > |bytes| ==> r == Err(PendingProfileInvalid) && next == offset
  {
    if offset + count > |bytes| {
      return Err(PendingProfileInvalid), offset;
    }
    return Ok(bytes[offset..offset + count]), offset + count;
  }

  // `parse_pending`, with its cursor.
  method ReadPending(bytes: seq<byte>) returns (r: Parse<Pending.Envelope>)
    ensures r == Pending.ParsePending(bytes)
  {
    if |bytes| != Pending.PENDING_SIZE || bytes[..8] != Pending.PENDING_MAGIC || bytes[8] != Pending.PENDING_VERSION {
      return Err(PendingProfileInvalid);
    }
    var offset := 9;
    var targetStoreHash, profileId, salt, nonce, ciphertext, tag;
    targetStoreHash, offset := TakeArray(bytes, offset, 32);
    profileId, offset := TakeArray(bytes, offset, 16);
    if bytes[offset] > 1 {
      return Err(PendingProfileInvalid);
    }
    var network := if bytes[offset] == 0 then Testnet else Mainnet;
    offset := offset + 1;
    salt, offset := TakeArray(bytes, offset, 16);
    nonce, offset := TakeArray(bytes, offset, 12);
    ciphertext, offset := TakeArray(bytes, offset, 32);
    tag, offset := TakeArray(bytes, offset, 16);
    r := Ok(Pending.Envelope(
      targetStoreHash.value, profileId.value, network, salt.value, nonce.value, ciphertext.value, tag.value));
  }

  method FinalizeGeneratedProfile(c: Crypto, store: seq<byte>, pending: seq<byte>, password: seq<byte>,
    random: Random) returns (r: Parse<Mutation<ProfileInfo>>)
    ensures r == Pending.FinalizeGeneratedProfile(c, store, pending, password, random)
  {
    hide DecodeStore, AddProfile, DuplicateTag, TagTaken, DeriveEncryptionKey, Pending.ParsePending, Pending.PendingAad;
    if !ValidPassword(password) {
      return Err(InvalidArgument);
    }
    var wallet :- Open(store);
    var p :- ReadPending(pending);
    if p.targetStoreHash != c.sha256(store) {
      return Err(PendingProfileInvalid);
    }
    var key :- DeriveEncryptionKey(c, password, p.salt);
    var plaintext := c.unseal(key, p.nonce, p.tag, Pending.PendingAad(p), p.ciphertext);
    if plaintext.None? {
      return Err(AuthenticationFailed);
    }
    if |plaintext.value| != 32 {
      return Err(PendingProfileInvalid);
    }
    var taken := wallet.HasTag(DuplicateTag(c, wallet.registryKey, p.network, plaintext.value));
    if taken {
      return Err(DuplicateProfile);
    }
    if p.profileId in ProfileIds(wallet.View().profiles) {
      return Err(PendingProfileInvalid);
    }
    r := AddNewProfile(c, wallet, p.profileId, p.network, plaintext.value, password, random);
  }

  method DeleteProfile(c: Crypto, store: seq<byte>, profileId: Bytes16, password: seq<byte>)
    returns (r: Parse<Mutation<()>>)
    ensures r == StoreOps.DeleteProfile(c, store, profileId, password)
  {
    hide DecodeStore, StoreOps.Authenticate, ProfileIndex, EncodeStore, Views;
    var wallet :- Open(store);
    var i :- wallet.Position(profileId);
    var _ :- wallet.Authenticate(c, profileId, password);
    wallet.Remove(i);
    var bytes :- wallet.Encoded();
    r := Ok(Mutation(bytes, ()));
  }

  // The common end of derive, import and generate.
  method AddNewKey(c: Crypto, wallet: WalletStore, i: nat, payload: Payload, chain: Chain, privateKey: Bytes32,
    origin: Origin, password: seq<byte>, random: Random) returns (r: Parse<Mutation<SoftwareKeyInfo>>)
    requires wallet.Valid() && i < |wallet.profiles|
    modifies wallet.profiles[i]
    ensures r == AddKey(c, old(wallet.View()), i, payload, chain, privateKey, origin, password, random)
  {
    hide StoreOps.Reencrypt, EncodeStore, HasKey, FreshId;
    var duplicate := IsDuplicate(payload.keys, chain, privateKey);
    if duplicate {
      return Err(DuplicateSoftwareKey);
    }
    var keyId :- NewId(random.ids, KeyIds(payload.keys));
    var updated := payload.(keys := payload.keys + [KeyRecord(keyId, chain, privateKey, origin, [], [])]);
    var _ :- wallet.Reencrypt(c, i, updated, password, false, random);
    var bytes :- wallet.Encoded();
    r := Ok(Mutation(bytes, SoftwareKeyInfo(keyId, chain, origin)));
  }

  method DeriveSoftwareKey(c: Crypto, store: seq<byte>, profileId: Bytes16, password: seq<byte>, chain: Chain,
    accountIndex: u64, random: Random) returns (r: Parse<Mutation<SoftwareKeyInfo>>)
    ensures r == StoreOps.DeriveSoftwareKey(c, store, profileId, password, chain, accountIndex, random)
  {
    hide DecodeStore, StoreOps.Authenticate, ProfileIndex, AddKey, DerivePrivateKey;
    var wallet :- Open(store);
    var i :- wallet.Position(profileId);
    var payload :- wallet.Authenticate(c, profileId, password);
    var privateKey :- PrivateKeyAt(c, payload.entropy, chain, wallet.profiles[i].network, accountIndex);
    DerivedInRange(c, payload.entropy, chain, wallet.profiles[i].network, accountIndex);
    r := AddNewKey(c, wallet, i, payload, chain, privateKey, Derived(accountIndex), password, random);
  }

  lemma DerivedInRange(c: Crypto, entropy: Bytes32, chain: Chain, network: Network, accountIndex: u64)
    requires DerivePrivateKey(c, entropy, chain, network, accountIndex).Ok?
    ensures accountIndex <= MAX_ACCOUNT_INDEX
  {
  }

  method ImportSoftwareKey(c: Crypto, store: seq<byte>, profileId: Bytes16, password: seq<byte>, chain: Chain,
    privateKey: seq<byte>, random: Random) returns (r: Parse<Mutation<SoftwareKeyInfo>>)
    ensures r == StoreOps.ImportSoftwareKey(c, store, profileId, password, chain, privateKey, random)
  {
    hide DecodeStore, StoreOps.Authenticate, ProfileIndex, AddKey;
    var wallet :- Open(store);
    var i :- wallet.Position(profileId);
    var payload :- wallet.Authenticate(c, profileId, password);
    var valid := IsValidKey(privateKey);
    if !valid {
      return Err(InvalidPrivateKey);
    }
    r := AddNewKey(c, wallet, i, payload, chain, privateKey, Imported, password, random);
  }

  method GenerateSoftwareKey(c: Crypto, store: seq<byte>, profileId: Bytes16, password: seq<byte>, chain: Chain,
    random: Random) returns (r: Parse<Mutation<SoftwareKeyInfo>>)
    ensures r == StoreOps.GenerateSoftwareKey(c, store, profileId, password, chain, random)
  {
    hide DecodeStore, StoreOps.Authenticate, ProfileIndex, AddKey, GeneratePrivateKey;
    var wallet :- Open(store);
    var i :- wallet.Position(profileId);
    var payload :- wallet.Authenticate(c, profileId, password);
    var privateKey :- NewPrivateKey(random.privateKeys);
    r := AddNewKey(c, wallet, i, payload, chain, privateKey, Generated, password, random);
  }

  method ChangeProfilePassword(c: Crypto, store: seq<byte>, profileId: Bytes16, current: seq<byte>,
    password: seq<byte>, random: Random) returns (r: Parse<Mutation<()>>)
    ensures r == StoreOps.ChangeProfilePassword(c, store, profileId, current, password, random)
  {
    hide DecodeStore, StoreOps.Authenticate, ProfileIndex, EncodeStore, StoreOps.Reencrypt;
    if !ValidPassword(password) {
      return Err(InvalidArgument);
    }
    var wallet :- Open(store);
    var i :- wallet.Position(profileId);
    var payload :- wallet.Authenticate(c, profileId, current);
    var _ :- wallet.Reencrypt(c, i, payload, password, true, random);
    var bytes :- wallet.Encoded();
    r := Ok(Mutation(bytes, ()));
  }

  // `retain`.
  method Retain(keys: seq<KeyRecord>, keyId: Bytes16) returns (kept: seq<KeyRecord>)
    ensures kept == WithoutKey(keys, keyId)
  {
    kept := [];
    for i := 0 to |keys|
      invariant kept == WithoutKey(keys[..i], keyId)
    {
      assert keys[..i + 1][..i] == keys[..i];
      if keys[i].keyId != keyId {
        kept := kept + [keys[i]];
      }
    }
    assert keys[..|keys|] == keys;
  }

  method DeleteSoftwareKey(c: Crypto, store: seq<byte>, profileId: Bytes16, keyId: Bytes16, password: seq<byte>,
    random: Random) returns (r: Parse<Mutation<()>>)
    ensures r == StoreOps.DeleteSoftwareKey(c, store, profileId, keyId, password, random)
  {
    hide DecodeStore, StoreOps.Authenticate, ProfileIndex, EncodeStore, StoreOps.Reencrypt, WithoutKey;
    var wallet :- Open(store);
    var i :- wallet.Position(profileId);
    var payload :- wallet.Authenticate(c, profileId, password);
    var kept := Retain(payload.keys, keyId);
    if |kept| == |payload.keys| {
      return Err(SoftwareKeyNotFound);
    }
    var _ :- wallet.Reencrypt(c, i, payload.(keys := kept), password, false, random);
    var bytes :- wallet.Encoded();
    r := Ok(Mutation(bytes, ()));
  }
}
