// Creating and deleting profiles: the new profile is read back, and deleting it gives the
// original Store to the byte.
module ProfileTheory {
  import opened Wrappers
  import opened Bytes
  import opened Sorting
  import opened Cbor
  import opened WalletTypes
  import opened WalletCrypto
  import opened StoreFormat
  import opened StoreFormatTheory
  import opened PayloadTheory
  import opened StoreOps
  import opened SealTheory
  import opened WireSizes
  import opened MutationTheory

  lemma NewProfile(
    c: Crypto, registryKey: Bytes32, profileId: Bytes16, network: Network, entropy: Bytes32, password: seq<byte>,
    random: Random, p: Profile)
    requires var tag := DuplicateTag(c, registryKey, network, entropy);
      NewEncryptedProfile(c, registryKey, profileId, network, tag, Payload(entropy, [], []), password, random) == Ok(p)
    ensures p.profileId == profileId && p.network == network && p.index == [] && PlainProfile(p)
    ensures p.duplicateTag == DuplicateTag(c, registryKey, network, entropy)
    ensures random.salt == Some(p.kdf.salt) && random.nonce == Some(p.cipher.nonce)
    ensures ProfileWellFormed(p) && |p.cipher.ciphertext| <= 40
    ensures OpenProfile(c, registryKey, p, password) == Ok(Payload(entropy, [], []))
  {
    hide SealProfile, OpenProfile, EncodePayload, PayloadWellFormed, DuplicateTag, Wire, Sort, PayloadToValue;
    var payload := Payload(entropy, [], []);
    var tag := DuplicateTag(c, registryKey, network, entropy);
    EmptyPayload(entropy);
    var u := UnsealedProfile(profileId, network, tag, [], random.salt.value, random.nonce.value);
    SealOpens(c, registryKey, u, payload, password, random.nonce, p);
    SealAuthenticates(c, registryKey, u, payload, password, random.nonce, p);
    UnsealedWellFormed(u);
    SealedWellFormed(u, p);
  }

  lemma EmptyPayload(entropy: Bytes32)
    ensures var payload := Payload(entropy, [], []);
      && PayloadWellFormed(payload) && Ordered(payload) == payload && IndexFromPayload(payload) == []
      && EncodePayload(payload).Ok? && |EncodePayload(payload).value| <= 40
  {
    hide Wire, EncodePayload, PayloadToValue;
    var payload := Payload(entropy, [], []);
    PayloadEncoding(payload);
    PayloadSize(payload);
  }

  lemma UnsealedWellFormed(u: Profile)
    requires PlainProfile(u) && u.index == [] && |u.cipher.ciphertext| <= MAX_CIPHERTEXT
    ensures ProfileWellFormed(u)
  {
    ArrayAdmissible([], STORE, 29);
  }

  lemma SealedWellFormed(u: Profile, p: Profile)
    requires ProfileWellFormed(u) && p == u.(cipher := p.cipher) && p.cipher.unknown == u.cipher.unknown
    requires |p.cipher.ciphertext| <= MAX_CIPHERTEXT
    ensures ProfileWellFormed(p)
  {
    hide Admissible, ParseIndex, Extension, KdfWellFormed;
  }

  // Inserting into a sorted sequence puts the element between two parts of it.
  lemma {:induction false} InsertSplits<T>(less: (T, T) -> bool, s: seq<T>, x: T) returns (k: nat)
    ensures k <= |s| && Insert(less, s, x) == s[..k] + [x] + s[k..]
  {
    if s == [] || !less(x, s[|s| - 1]) {
      k := |s|;
    } else {
      var front := s[..|s| - 1];
      k := InsertSplits(less, front, x);
      assert s[k..] == front[k..] + [s[|s| - 1]] && s[..k] == front[..k];
    }
  }

  // The Store with a new profile in its place.
  function WithProfile(s: Store, p: Profile): Store {
    s.(profiles := Insert(ProfileLess, s.profiles, p))
  }

  lemma SortAppended(profiles: seq<Profile>, p: Profile)
    requires StrictlySorted(ProfileLess, profiles)
    ensures Sort(ProfileLess, profiles + [p]) == Insert(ProfileLess, profiles, p)
  {
    SortKeepsProfiles(profiles);
    assert (profiles + [p])[..|profiles|] == profiles;
  }

  lemma WithProfileWellFormed(s: Store, p: Profile)
    requires StoreWellFormed(s) && ProfileWellFormed(p) && p.profileId !in ProfileIds(s.profiles)
    requires |s.profiles| < MAX_PROFILES
    ensures StoreWellFormed(WithProfile(s, p))
  {
    hide ProfileWellFormed, Less, Order, StrictlySorted, ProfileIds, Sort, Insert, Extension;
    var all := s.profiles + [p];
    LessOrder();
    AppendedProfileComparable(s.profiles, p);
    SortStrictly(ProfileLess, all);
    SortAppended(s.profiles, p);
    SortPermutes(ProfileLess, all);
    AllProfilesWellFormed(all, Sort(ProfileLess, all));
  }

  lemma AppendedProfileComparable(profiles: seq<Profile>, p: Profile)
    requires StrictlySorted(ProfileLess, profiles) && p.profileId !in ProfileIds(profiles)
    ensures var all := profiles + [p];
      forall i, j | 0 <= i < j < |all| :: ProfileLess(all[i], all[j]) || ProfileLess(all[j], all[i])
  {
    hide Less;
    var all := profiles + [p];
    forall i, j | 0 <= i < j < |all| ensures ProfileLess(all[i], all[j]) || ProfileLess(all[j], all[i]) {
      if j < |profiles| {
        assert ProfileLess(profiles[i], profiles[j]);
      } else {
        assert ProfileIds(profiles)[i] == profiles[i].profileId;
        LessTotal(all[i].profileId, all[j].profileId);
      }
    }
  }

  lemma AllProfilesWellFormed(profiles: seq<Profile>, sorted: seq<Profile>)
    requires multiset(profiles) == multiset(sorted)
    requires forall i | 0 <= i < |profiles| :: ProfileWellFormed(profiles[i])
    ensures forall i | 0 <= i < |sorted| :: ProfileWellFormed(sorted[i])
  {
    hide ProfileWellFormed;
    PermutationMembers(profiles, sorted);
    forall i | 0 <= i < |sorted| ensures ProfileWellFormed(sorted[i]) {
      assert sorted[i] in profiles;
    }
  }

  // `encode_store` sorts, so appending a profile and inserting it in place are encoded alike.
  lemma AppendedEncoding(s: Store, p: Profile)
    requires StoreWellFormed(s) && StoreWellFormed(WithProfile(s, p))
    ensures EncodeStore(s.(profiles := s.profiles + [p])) == EncodeStore(WithProfile(s, p))
  {
    hide ProfileWellFormed, Encode, ProfileValues, Sort, Insert, StrictlySorted;
    SortAppended(s.profiles, p);
    SortKeepsProfiles(WithProfile(s, p).profiles);
  }

  // A created profile: accepted again, in its place, authenticating to its entropy alone.
  lemma AddedProfile(
    c: Crypto, s: Store, profileId: Bytes16, network: Network, entropy: Bytes32, password: seq<byte>, random: Random,
    m: Mutation<ProfileInfo>) returns (p: Profile, k: nat)
    requires StoreWellFormed(s) && profileId !in ProfileIds(s.profiles)
    requires AddProfile(c, s, profileId, network, entropy, password, random) == Ok(m)
    ensures m.value == ProfileInfo(profileId, network, 0)
    ensures p.profileId == profileId && p.network == network && p.index == [] && PlainProfile(p)
    ensures p.duplicateTag == DuplicateTag(c, s.registryKey, network, entropy) && |p.cipher.ciphertext| <= 40
    ensures random.salt == Some(p.kdf.salt) && random.nonce == Some(p.cipher.nonce)
    ensures OpenProfile(c, s.registryKey, p, password) == Ok(Payload(entropy, [], []))
    ensures k <= |s.profiles| < MAX_PROFILES
    ensures WithProfile(s, p).profiles == s.profiles[..k] + [p] + s.profiles[k..]
    ensures StoreWellFormed(WithProfile(s, p)) && EncodeStore(WithProfile(s, p)) == Ok(m.store)
    ensures Written(c, m.store, WithProfile(s, p), profileId, password, Payload(entropy, [], []))
  {
    hide OpenProfile, ProfileWellFormed, StoreWellFormed, ProfileIds, Extension, EncodeStore, DuplicateTag,
      NewEncryptedProfile, Written, PlainProfile, Insert;
    var tag := DuplicateTag(c, s.registryKey, network, entropy);
    p := NewEncryptedProfile(
      c, s.registryKey, profileId, network, tag, Payload(entropy, [], []), password, random).value;
    NewProfile(c, s.registryKey, profileId, network, entropy, password, random, p);
    k := InsertSplits(ProfileLess, s.profiles, p);
    EncodeBoundsProfiles(s.(profiles := s.profiles + [p]));
    WithProfileWellFormed(s, p);
    AppendedEncoding(s, p);
    var t := WithProfile(s, p);
    assert t.profiles[k] == p;
    WrittenBack(c, t, k, m.store, password, Payload(entropy, [], []));
  }

  lemma EncodeBoundsProfiles(s: Store)
    requires EncodeStore(s).Ok?
    ensures |s.profiles| <= MAX_PROFILES
  {
    hide Encode, StoreToValue;
  }

  // Deleting the new profile gives the original Store's bytes, wherever its id sorts.
  lemma DeleteUndoesAdd(
    c: Crypto, store: seq<byte>, s: Store, profileId: Bytes16, network: Network, entropy: Bytes32, password: seq<byte>,
    random: Random, m: Mutation<ProfileInfo>)
    requires DecodeStore(store) == Ok(s) && profileId !in ProfileIds(s.profiles)
    requires AddProfile(c, s, profileId, network, entropy, password, random) == Ok(m)
    ensures DeleteProfile(c, m.store, profileId, password) == Ok(Mutation(store, ()))
  {
    hide OpenProfile, ProfileWellFormed, StoreWellFormed, ProfileIds, EncodeStore, DecodeStore, AddProfile, Extension,
      PlainProfile, Authenticate, Insert, DuplicateTag, ProfileIndex;
    StoreCodec(store, s);
    var p, k := AddedProfile(c, s, profileId, network, entropy, password, random, m);
    var t := WithProfile(s, p);
    assert t.profiles[k] == p;
    SortedProfiles(t);
    ProfileIndexFinds(t.profiles, k);
    assert t.profiles[..k] + t.profiles[k + 1..] == s.profiles;
    assert t.(profiles := s.profiles) == s;
  }

  lemma SortedProfiles(s: Store)
    requires StoreWellFormed(s)
    ensures StrictlySorted(ProfileLess, s.profiles)
  {
  }

  // Restoring a mnemonic and then deleting that profile leaves the Store as it was.
  lemma DeleteUndoesRestore(
    c: Crypto, store: seq<byte>, mnemonic: seq<byte>, password: seq<byte>, network: Network, random: Random,
    m: Mutation<ProfileInfo>)
    requires RestoreProfile(c, store, mnemonic, password, network, random) == Ok(m)
    ensures DeleteProfile(c, m.store, m.value.profileId, password) == Ok(Mutation(store, ()))
  {
    hide DecodeStore, AddProfile, DeleteProfile, TagTaken, FreshId, ProfileIds, ValidPassword;
    var s := DecodeStore(store).value;
    var entropy := c.parseMnemonic(mnemonic).value;
    var profileId := FreshId(random.ids, ProfileIds(s.profiles)).value;
    AddedInfo(c, s, profileId, network, entropy, password, random, m);
    DeleteUndoesAdd(c, store, s, profileId, network, entropy, password, random, m);
  }

  // The same mnemonic is refused on the same network, whatever the password.
  lemma RestoreOnlyOnce(
    c: Crypto, store: seq<byte>, mnemonic: seq<byte>, password: seq<byte>, network: Network, random: Random,
    m: Mutation<ProfileInfo>, other: seq<byte>, later: Random)
    requires RestoreProfile(c, store, mnemonic, password, network, random) == Ok(m)
    requires ValidPassword(other)
    ensures RestoreProfile(c, m.store, mnemonic, other, network, later) == Err(DuplicateProfile)
  {
    hide DecodeStore, AddProfile, FreshId, ProfileIds, ValidPassword, DuplicateTag, StoreWellFormed, OpenProfile,
      Authenticate, PlainProfile, EncodeStore, TagTaken;
    var s := DecodeStore(store).value;
    var entropy := c.parseMnemonic(mnemonic).value;
    var profileId := FreshId(random.ids, ProfileIds(s.profiles)).value;
    StoreCodec(store, s);
    var p, k := AddedProfile(c, s, profileId, network, entropy, password, random, m);
    NowTaken(WithProfile(s, p).profiles, k, p.duplicateTag);
  }

  lemma NowTaken(profiles: seq<Profile>, k: nat, tag: Bytes32)
    requires k < |profiles| && profiles[k].duplicateTag == tag
    ensures TagTaken(profiles, tag)
  {
  }

  lemma AddedInfo(
    c: Crypto, s: Store, profileId: Bytes16, network: Network, entropy: Bytes32, password: seq<byte>, random: Random,
    m: Mutation<ProfileInfo>)
    requires AddProfile(c, s, profileId, network, entropy, password, random) == Ok(m)
    ensures m.value == ProfileInfo(profileId, network, 0)
  {
    hide OpenProfile, EncodeStore, NewEncryptedProfile, DuplicateTag;
    var tag := DuplicateTag(c, s.registryKey, network, entropy);
    var p := NewEncryptedProfile(
      c, s.registryKey, profileId, network, tag, Payload(entropy, [], []), password, random).value;
    NewProfile(c, s.registryKey, profileId, network, entropy, password, random, p);
  }

  // Deleting a profile keeps the others as they are.
  lemma DeletedProfile(c: Crypto, store: seq<byte>, s: Store, profileId: Bytes16, password: seq<byte>, m: Mutation<()>)
    returns (i: nat, t: Store)
    requires DecodeStore(store) == Ok(s) && DeleteProfile(c, store, profileId, password) == Ok(m)
    ensures i < |s.profiles| && s.profiles[i].profileId == profileId
    ensures t == s.(profiles := s.profiles[..i] + s.profiles[i + 1..])
    ensures StoreWellFormed(t) && EncodeStore(t) == Ok(m.store) && DecodeStore(m.store) == Ok(t)
  {
    hide OpenProfile, ProfileWellFormed, EncodeStore, DecodeStore, Extension, ProfilesWellFormed;
    i := ProfileIndex(s.profiles, profileId).value;
    t := s.(profiles := s.profiles[..i] + s.profiles[i + 1..]);
    StoreCodec(store, s);
    RemovedProfiles(s.profiles, i);
    StoreCodec(m.store, t);
  }

  lemma RemovedProfiles(profiles: seq<Profile>, i: nat)
    requires ProfilesWellFormed(profiles) && i < |profiles|
    ensures ProfilesWellFormed(profiles[..i] + profiles[i + 1..])
  {
    hide ProfileWellFormed, Less;
    var left := profiles[..i] + profiles[i + 1..];
    forall a, b | 0 <= a < b < |left| ensures ProfileLess(left[a], left[b]) {
      var p, q := if a < i then a else a + 1, if b < i then b else b + 1;
      assert left[a] == profiles[p] && left[b] == profiles[q] && p < q;
      assert ProfileLess(profiles[p], profiles[q]);
    }
  }
}
