// Every Store reached from an empty one by any sequence of operations.
module StoreRuns {
  import opened Wrappers
  import opened Bytes
  import opened Sorting
  import opened Cbor
  import opened WalletTypes
  import opened WalletCrypto
  import opened StoreFormat
  import opened StoreFormatTheory
  import opened PayloadTheory
  import opened StoreOps
  import opened IndexTheory
  import opened SealTheory
  import opened WireSizes
  import opened MutationTheory
  import opened ProfileTheory
  import opened Pending
  import opened PendingTheory

  // What the users of the wallet know: each profile's current password and payload.
  datatype Secret = Secret(password: seq<byte>, payload: Payload)

  datatype World = World(store: seq<byte>, secrets: map<Bytes16, Secret>)

  datatype Action =
    | Restore(mnemonic: seq<byte>, password: seq<byte>, network: Network, random: Random)
    | Finalize(pending: seq<byte>, password: seq<byte>, random: Random)
    | Derive(profileId: Bytes16, password: seq<byte>, chain: Chain, accountIndex: u64, random: Random)
    | Import(profileId: Bytes16, password: seq<byte>, chain: Chain, privateKey: seq<byte>, random: Random)
    | Generate(profileId: Bytes16, password: seq<byte>, chain: Chain, random: Random)
    | ChangePassword(profileId: Bytes16, password: seq<byte>, newPassword: seq<byte>, random: Random)
    | DeleteKey(profileId: Bytes16, password: seq<byte>, keyId: Bytes16, random: Random)
    | Delete(profileId: Bytes16, password: seq<byte>)

  // Authenticated actions are made with the profile's current password. (That another
  // password is rejected is an assumption about the cipher, not decided by this code.)
  predicate Honest(w: World, a: Action) {
    a.Restore? || a.Finalize? || (a.profileId in w.secrets ==> a.password == w.secrets[a.profileId].password)
  }

  function Entropy(c: Crypto, a: Action): Option<seq<byte>> {
    match a
    case Restore(mnemonic, _, _, _) =>
      var entropy := c.parseMnemonic(mnemonic);
      if entropy.Some? then Some(entropy.value) else None
    case Finalize(pending, password, _) =>
      var p := ParsePending(pending);
      if p.Err? then None else
      c.unseal(c.argon2id(password, p.value.salt), p.value.nonce, p.value.tag, PendingAad(p.value), p.value.ciphertext)
    case _ => None
  }

  function Created(w: World, m: Parse<Mutation<ProfileInfo>>, password: seq<byte>, entropy: Option<seq<byte>>): World {
    if m.Err? || entropy.None? || |entropy.value| != 32 then w
    else World(
      m.value.store, w.secrets[m.value.value.profileId := Secret(password, Payload(entropy.value, [], []))])
  }

  function KeyAdded(w: World, a: Action, m: Parse<Mutation<SoftwareKeyInfo>>, privateKey: Parse<Bytes32>): World
    requires !a.Restore? && !a.Finalize?
  {
    if m.Err? || privateKey.Err? || a.profileId !in w.secrets then w
    else
      var payload := w.secrets[a.profileId].payload;
      var key := NewKey(m.value.value.keyId, m.value.value.chain, privateKey.value, m.value.value.origin);
      World(m.value.store,
        w.secrets[a.profileId := Secret(a.password, Ordered(payload.(keys := payload.keys + [key])))])
  }

  function ProfileNetwork(w: World, profileId: Bytes16): Network {
    var s := DecodeStore(w.store);
    if s.Err? then Testnet else
    var i := ProfileIndex(s.value.profiles, profileId);
    if i.Err? then Testnet else s.value.profiles[i.value].network
  }

  function DerivedKey(c: Crypto, w: World, a: Action): Parse<Bytes32>
    requires a.Derive?
  {
    if a.profileId !in w.secrets then Err(ProfileNotFound)
    else DerivePrivateKey(
      c, w.secrets[a.profileId].payload.entropy, a.chain, ProfileNetwork(w, a.profileId), a.accountIndex)
  }

  // The world after an action: a failing operation returns no Store and changes nothing.
  function Step(c: Crypto, w: World, a: Action): World {
    match a
    case Restore(mnemonic, password, network, random) =>
      Created(w, RestoreProfile(c, w.store, mnemonic, password, network, random), password, Entropy(c, a))
    case Finalize(pending, password, random) =>
      Created(w, FinalizeGeneratedProfile(c, w.store, pending, password, random), password, Entropy(c, a))
    case Derive(profileId, password, chain, accountIndex, random) =>
      KeyAdded(w, a, DeriveSoftwareKey(c, w.store, profileId, password, chain, accountIndex, random),
        DerivedKey(c, w, a))
    case Import(profileId, password, chain, privateKey, random) =>
      KeyAdded(w, a, ImportSoftwareKey(c, w.store, profileId, password, chain, privateKey, random),
        if |privateKey| == 32 then Ok(privateKey) else Err(InvalidPrivateKey))
    case Generate(profileId, password, chain, random) =>
      KeyAdded(w, a, GenerateSoftwareKey(c, w.store, profileId, password, chain, random),
        GeneratePrivateKey(random.privateKeys))
    case ChangePassword(profileId, password, newPassword, random) =>
      var m := ChangeProfilePassword(c, w.store, profileId, password, newPassword, random);
      if m.Err? || profileId !in w.secrets then w
      else World(m.value.store, w.secrets[profileId := Secret(newPassword, w.secrets[profileId].payload)])
    case DeleteKey(profileId, password, keyId, random) =>
      var m := DeleteSoftwareKey(c, w.store, profileId, keyId, password, random);
      if m.Err? || profileId !in w.secrets then w
      else
        var payload := w.secrets[profileId].payload;
        World(m.value.store,
          w.secrets[profileId := Secret(password, payload.(keys := WithoutKey(payload.keys, keyId)))])
    case Delete(profileId, password) =>
      var m := DeleteProfile(c, w.store, profileId, password);
      if m.Err? then w else World(m.value.store, w.secrets - {profileId})
  }

  function Run(c: Crypto, w: World, actions: seq<Action>): World {
    if actions == [] then w else Step(c, Run(c, w, actions[..|actions| - 1]), actions[|actions| - 1])
  }

  ghost predicate HonestRun(c: Crypto, w: World, actions: seq<Action>) {
    forall i | 0 <= i < |actions| :: Honest(Run(c, w, actions[..i]), actions[i])
  }

  // ----- the invariant

  ghost predicate KeysDistinct(keys: seq<KeyRecord>) {
    forall i, j | 0 <= i < j < |keys| :: keys[i].chain != keys[j].chain || keys[i].privateKey != keys[j].privateKey
  }

  ghost predicate ProfileInvariant(c: Crypto, registryKey: Bytes32, p: Profile, secret: Secret) {
    && SmallPlain(p)
    && OpenProfile(c, registryKey, p, secret.password) == Ok(secret.payload)
    && PlainPayload(secret.payload)
    && KeysDistinct(secret.payload.keys)
  }

  ghost predicate TagsDistinct(profiles: seq<Profile>) {
    forall i, j | 0 <= i < j < |profiles| :: profiles[i].duplicateTag != profiles[j].duplicateTag
  }

  ghost predicate HasProfile(profiles: seq<Profile>, id: Bytes16) {
    exists i :: 0 <= i < |profiles| && profiles[i].profileId == id
  }

  ghost predicate StoreInvariant(c: Crypto, s: Store, secrets: map<Bytes16, Secret>) {
    && StoreWellFormed(s)
    && s.unknown == []
    && (forall id | id in secrets :: HasProfile(s.profiles, id))
    && (forall i | 0 <= i < |s.profiles| :: ProfileKnownBy(c, s.registryKey, s.profiles[i], secrets))
    && TagsDistinct(s.profiles)
  }

  ghost predicate ProfileKnownBy(c: Crypto, registryKey: Bytes32, p: Profile, secrets: map<Bytes16, Secret>) {
    p.profileId in secrets && ProfileInvariant(c, registryKey, p, secrets[p.profileId])
  }

  ghost predicate Invariant(c: Crypto, w: World) {
    DecodeStore(w.store).Ok? && StoreInvariant(c, DecodeStore(w.store).value, w.secrets)
  }

  // ----- creation

  lemma EmptyStoreInvariant(c: Crypto, registryKey: Bytes32)
    ensures CreateEmptyStore(Some(registryKey)).Ok?
    ensures DecodeStore(CreateEmptyStore(Some(registryKey)).value) == Ok(Store(registryKey, [], []))
    ensures Invariant(c, World(CreateEmptyStore(Some(registryKey)).value, map[]))
  {
    hide Wire, StoreToValue, Decode;
    var s := Store(registryKey, [], []);
    StoreSize(s);
    StoreEncoding(s);
    StoreCodec(EncodeStore(s).value, s);
  }

  lemma ProfileCreated(
    c: Crypto, s: Store, secrets: map<Bytes16, Secret>, p: Profile, k: nat, t: Store, password: seq<byte>,
    entropy: Bytes32)
    requires StoreInvariant(c, s, secrets) && k <= |s.profiles|
    requires p.profileId !in ProfileIds(s.profiles) && !TagTaken(s.profiles, p.duplicateTag)
    requires p.index == [] && PlainProfile(p) && |p.cipher.ciphertext| <= 40
    requires OpenProfile(c, s.registryKey, p, password) == Ok(Payload(entropy, [], []))
    requires StoreWellFormed(t) && t == s.(profiles := s.profiles[..k] + [p] + s.profiles[k..])
    ensures StoreInvariant(c, t, secrets[p.profileId := Secret(password, Payload(entropy, [], []))])
  {
    hide OpenProfile, StoreWellFormed, ProfileIds, PlainProfile, HasProfile, TagsDistinct, ProfileKnownBy;
    var secret := Secret(password, Payload(entropy, [], []));
    assert ProfileKnownBy(c, s.registryKey, p, secrets[p.profileId := secret]) by {
      NewProfileKnown(c, s.registryKey, p, secret, secrets);
    }
    CreatedKnown(c, s, secrets, p, k, secret);
    CreatedIds(s.profiles, secrets, p, k);
    InsertedTagsDistinct(s.profiles, p, k);
  }

  lemma NewProfileKnown(c: Crypto, registryKey: Bytes32, p: Profile, secret: Secret, secrets: map<Bytes16, Secret>)
    requires p.index == [] && PlainProfile(p) && |p.cipher.ciphertext| <= 40
    requires OpenProfile(c, registryKey, p, secret.password) == Ok(secret.payload)
    requires secret.payload.keys == [] && secret.payload.unknown == []
    ensures ProfileKnownBy(c, registryKey, p, secrets[p.profileId := secret])
  {
    hide OpenProfile, PlainProfile;
  }

  lemma CreatedKnown(c: Crypto, s: Store, secrets: map<Bytes16, Secret>, p: Profile, k: nat, secret: Secret)
    requires k <= |s.profiles| && p.profileId !in ProfileIds(s.profiles)
    requires forall i | 0 <= i < |s.profiles| :: ProfileKnownBy(c, s.registryKey, s.profiles[i], secrets)
    requires ProfileKnownBy(c, s.registryKey, p, secrets[p.profileId := secret])
    ensures var all := s.profiles[..k] + [p] + s.profiles[k..];
      forall i | 0 <= i < |all| :: ProfileKnownBy(c, s.registryKey, all[i], secrets[p.profileId := secret])
  {
    hide ProfileInvariant;
    var all := s.profiles[..k] + [p] + s.profiles[k..];
    forall i | 0 <= i < |all| ensures ProfileKnownBy(c, s.registryKey, all[i], secrets[p.profileId := secret]) {
      if i != k {
        var j := if i < k then i else i - 1;
        assert all[i] == s.profiles[j];
        assert ProfileIds(s.profiles)[j] == s.profiles[j].profileId;
        assert ProfileKnownBy(c, s.registryKey, s.profiles[j], secrets);
      }
    }
  }

  lemma CreatedIds(profiles: seq<Profile>, secrets: map<Bytes16, Secret>, p: Profile, k: nat)
    requires k <= |profiles| && forall id | id in secrets :: HasProfile(profiles, id)
    ensures var all := profiles[..k] + [p] + profiles[k..];
      forall id | id in secrets || id == p.profileId :: HasProfile(all, id)
  {
    var all := profiles[..k] + [p] + profiles[k..];
    forall id | id in secrets || id == p.profileId ensures HasProfile(all, id) {
      if id == p.profileId {
        assert all[k] == p;
      } else {
        var j :| 0 <= j < |profiles| && profiles[j].profileId == id;
        assert all[if j < k then j else j + 1] == profiles[j];
      }
    }
  }

  lemma InsertedTagsDistinct(profiles: seq<Profile>, p: Profile, k: nat)
    requires TagsDistinct(profiles) && !TagTaken(profiles, p.duplicateTag) && k <= |profiles|
    ensures TagsDistinct(profiles[..k] + [p] + profiles[k..])
  {
    var all := profiles[..k] + [p] + profiles[k..];
    forall i, j | 0 <= i < j < |all| ensures all[i].duplicateTag != all[j].duplicateTag {
      if i != k {
        assert all[i] == profiles[if i < k then i else i - 1];
      }
      if j != k {
        assert all[j] == profiles[if j < k then j else j - 1];
      }
    }
  }

  lemma AddKeepsInvariant(
    c: Crypto, w: World, profileId: Bytes16, network: Network, entropy: Bytes32, password: seq<byte>, random: Random,
    m: Mutation<ProfileInfo>)
    requires Invariant(c, w)
    requires var s := DecodeStore(w.store).value;
      && profileId !in ProfileIds(s.profiles)
      && !TagTaken(s.profiles, DuplicateTag(c, s.registryKey, network, entropy))
      && AddProfile(c, s, profileId, network, entropy, password, random) == Ok(m)
    ensures m.value.profileId == profileId
    ensures Invariant(c, World(m.store, w.secrets[profileId := Secret(password, Payload(entropy, [], []))]))
  {
    hide OpenProfile, StoreWellFormed, ProfileIds, PlainProfile, TagTaken, DuplicateTag, AddProfile, DecodeStore,
      EncodeStore, Authenticate, Insert, ProfileInvariant, TagsDistinct;
    var s := DecodeStore(w.store).value;
    StoreCodec(w.store, s);
    var p, k := AddedProfile(c, s, profileId, network, entropy, password, random, m);
    ProfileCreated(c, s, w.secrets, p, k, WithProfile(s, p), password, entropy);
  }

  // ----- mutations of a profile

  lemma {:induction false} PlainUnknownOf(index: seq<IndexEntry>, keyId: Bytes16, values: seq<Value>)
    requires |values| == |index| && forall i | 0 <= i < |index| :: values[i] == IndexToValue(index[i])
    ensures UnknownOf(values, keyId) == []
  {
    hide WireKeyId;
    if values != [] {
      assert UnknownFields(IndexKnown(index[0]), 2) == [] by {
        UnknownFieldsDrop(IndexKnown(index[0]), [], 2);
        assert IndexKnown(index[0]) + [] == IndexKnown(index[0]);
      }
      PlainUnknownOf(index[1..], keyId, values[1..]);
    }
  }

  lemma PlainMerge(p: Profile, index: seq<IndexEntry>)
    requires PlainProfile(p) && ProfileWellFormed(p) && StrictlySorted(IndexLess, index)
    ensures MergeIndex(index, p.aadIndex) == IndexToValues(index)
  {
    hide ProfileWellFormed, MergeIndex, UnknownOf, IndexToValue, IndexKnown, StrictlySorted;
    WellFormedIndex(p);
    ParsedIdsAscend(p.aadIndex, p.index);
    MergeIsLookup(index, p.aadIndex);
    forall i | 0 <= i < |index| ensures MergeIndex(index, p.aadIndex)[i] == IndexToValues(index)[i] {
      PlainUnknownOf(p.index, index[i].keyId, p.aadIndex);
      PlainIndexValue(index[i]);
    }
  }

  lemma PlainIndexValue(entry: IndexEntry)
    ensures Map(IndexKnown(entry) + []) == IndexToValue(entry)
  {
  }

  lemma WellFormedIndex(p: Profile)
    requires ProfileWellFormed(p)
    ensures ParseIndex(p.aadIndex) == Ok(p.index)
  {
  }

  lemma PlainPayloadFits(payload: Payload)
    requires PlainPayload(payload) && PayloadWellFormed(payload)
    ensures EncodePayload(payload).Ok? && |EncodePayload(payload).value| <= MAX_PLAIN_PAYLOAD
  {
    hide Wire, EncodePayload, PayloadToValue;
    PayloadEncoding(payload);
    PayloadSize(payload);
  }

  lemma KeysChangedInvariant(
    c: Crypto, s: Store, secrets: map<Bytes16, Secret>, i: nat, t: Store, password: seq<byte>, payload: Payload)
    requires StoreInvariant(c, s, secrets) && OnlyKeysChanged(s, t, i, payload.keys) && StoreWellFormed(t)
    requires OpenProfile(c, t.registryKey, t.profiles[i], password) == Ok(payload)
    requires PlainPayload(payload) && KeysDistinct(payload.keys)
    ensures StoreInvariant(c, t, secrets[s.profiles[i].profileId := Secret(password, payload)])
  {
    hide OpenProfile, StoreWellFormed, PlainPayload, KeysDistinct, EnvelopeKept, SmallPlain, HasProfile, TagsDistinct,
      ProfileKnownBy;
    ChangedProfileKnown(c, s, secrets, i, t, password, payload);
    ChangedIds(s, secrets, i, t, payload.keys);
    ChangedTags(s, i, t, payload.keys);
  }

  lemma ChangedProfileKnown(
    c: Crypto, s: Store, secrets: map<Bytes16, Secret>, i: nat, t: Store, password: seq<byte>, payload: Payload)
    requires StoreInvariant(c, s, secrets) && OnlyKeysChanged(s, t, i, payload.keys)
    requires OpenProfile(c, t.registryKey, t.profiles[i], password) == Ok(payload)
    requires PlainPayload(payload) && KeysDistinct(payload.keys)
    ensures forall j | 0 <= j < |t.profiles| ::
      ProfileKnownBy(c, t.registryKey, t.profiles[j], secrets[s.profiles[i].profileId := Secret(password, payload)])
  {
    hide OpenProfile, StoreWellFormed, PlainPayload, KeysDistinct, UnknownOf, IndexOfKeys, MergeIndex, SmallPlain,
      HasProfile, TagsDistinct;
    var after := secrets[s.profiles[i].profileId := Secret(password, payload)];
    ChangedProfileSmall(c, s, i, t, password, payload, secrets);
    forall j | 0 <= j < |t.profiles| ensures ProfileKnownBy(c, t.registryKey, t.profiles[j], after) {
      if j != i {
        assert ProfileKnownBy(c, s.registryKey, s.profiles[j], secrets);
        DistinctIds(s, i, j);
      }
    }
  }

  lemma ChangedIds(s: Store, secrets: map<Bytes16, Secret>, i: nat, t: Store, keys: seq<KeyRecord>)
    requires OnlyKeysChanged(s, t, i, keys) && forall id | id in secrets :: HasProfile(s.profiles, id)
    ensures forall id | id in secrets || id == s.profiles[i].profileId :: HasProfile(t.profiles, id)
  {
    hide UnknownOf, IndexOfKeys, MergeIndex;
    forall id | id in secrets || id == s.profiles[i].profileId ensures HasProfile(t.profiles, id) {
      var j :| 0 <= j < |s.profiles| && s.profiles[j].profileId == id;
      assert t.profiles[j].profileId == id;
    }
  }

  lemma ChangedTags(s: Store, i: nat, t: Store, keys: seq<KeyRecord>)
    requires OnlyKeysChanged(s, t, i, keys) && TagsDistinct(s.profiles)
    ensures TagsDistinct(t.profiles)
  {
    hide UnknownOf, IndexOfKeys, MergeIndex;
    SameTags(s.profiles, t.profiles);
  }

  lemma SameTags(before: seq<Profile>, after: seq<Profile>)
    requires |before| == |after| && TagsDistinct(before)
    requires forall i | 0 <= i < |before| :: after[i].duplicateTag == before[i].duplicateTag
    ensures TagsDistinct(after)
  {
  }

  lemma DistinctIds(s: Store, i: nat, j: nat)
    requires StoreWellFormed(s) && i < |s.profiles| && j < |s.profiles| && i != j
    ensures s.profiles[i].profileId != s.profiles[j].profileId
  {
    hide Less, Extension, ProfileWellFormed;
    var a, b := if i < j then i else j, if i < j then j else i;
    assert ProfileLess(s.profiles[a], s.profiles[b]);
    LessAsymmetric(s.profiles[a].profileId, s.profiles[b].profileId);
  }

  lemma ChangedProfileSmall(
    c: Crypto, s: Store, i: nat, t: Store, password: seq<byte>, payload: Payload, secrets: map<Bytes16, Secret>)
    requires StoreInvariant(c, s, secrets) && OnlyKeysChanged(s, t, i, payload.keys)
    requires OpenProfile(c, t.registryKey, t.profiles[i], password) == Ok(payload) && PlainPayload(payload)
    ensures SmallPlain(t.profiles[i])
  {
    hide OpenProfile, PlainPayload, KeysDistinct, UnknownOf, IndexOfKeys, MergeIndex, TagsDistinct, EncodePayload,
      KeyWellFormed, Extension, ProfileWellFormed, IndexToValues;
    var p, q := s.profiles[i], t.profiles[i];
    assert ProfileKnownBy(c, s.registryKey, p, secrets);
    OpenedBelongs(c, t.registryKey, q, password, payload);
    PlainPayloadFits(payload);
    IndexOfSorted(payload.keys);
    PlainMerge(p, q.index);
  }

  lemma KnownProfile(c: Crypto, s: Store, secrets: map<Bytes16, Secret>, i: nat)
    requires StoreInvariant(c, s, secrets) && i < |s.profiles|
    ensures s.profiles[i].profileId in secrets
    ensures ProfileInvariant(c, s.registryKey, s.profiles[i], secrets[s.profiles[i].profileId])
  {
    hide ProfileInvariant, StoreWellFormed, TagsDistinct;
    assert ProfileKnownBy(c, s.registryKey, s.profiles[i], secrets);
  }

  lemma AddedKeyPlain(payload: Payload, key: KeyRecord)
    requires PlainPayload(payload) && PlainKey(key) && KeysDistinct(payload.keys)
    requires !HasKey(payload.keys, key.chain, key.privateKey)
    ensures var updated := Ordered(payload.(keys := payload.keys + [key]));
      PlainPayload(updated) && KeysDistinct(updated.keys)
  {
    hide PlainKey, Sort;
    var all := payload.keys + [key];
    SortPermutes(KeyIdLess, all);
    AllUnderPermutation(PlainKey, all, Sort(KeyIdLess, all));
    assert KeysDistinct(all);
    DistinctUnderPermutation(all, Sort(KeyIdLess, all));
  }

  lemma DistinctUnderPermutation(keys: seq<KeyRecord>, sorted: seq<KeyRecord>)
    requires multiset(keys) == multiset(sorted) && KeysDistinct(keys)
    ensures KeysDistinct(sorted)
  {
    PermutationMembers(keys, sorted);
    forall i, j | 0 <= i < j < |sorted|
      ensures sorted[i].chain != sorted[j].chain || sorted[i].privateKey != sorted[j].privateKey
    {
      assert sorted[i] in keys && sorted[j] in keys;
      var p :| 0 <= p < |keys| && keys[p] == sorted[i];
      var q :| 0 <= q < |keys| && keys[q] == sorted[j];
      if p == q {
        OnceInDistinct(keys, p);
        TwiceMeansTwo(sorted, i, j);
        assert false;
      }
    }
  }

  lemma OnceInDistinct(keys: seq<KeyRecord>, p: nat)
    requires KeysDistinct(keys) && p < |keys|
    ensures multiset(keys)[keys[p]] == 1
  {
    assert keys == keys[..p] + [keys[p]] + keys[p + 1..];
    assert keys[p] !in keys[..p] && keys[p] !in keys[p + 1..];
  }

  // ----- one step

  lemma RestoreKeepsInvariant(c: Crypto, w: World, a: Action)
    requires Invariant(c, w) && a.Restore?
    ensures Invariant(c, Step(c, w, a))
  {
    hide DecodeStore, AddProfile, TagTaken, FreshId, ProfileIds, ValidPassword, DuplicateTag, StoreInvariant;
    var r := RestoreProfile(c, w.store, a.mnemonic, a.password, a.network, a.random);
    if r.Ok? {
      var s := DecodeStore(w.store).value;
      var profileId := FreshId(a.random.ids, ProfileIds(s.profiles)).value;
      var entropy := c.parseMnemonic(a.mnemonic).value;
      AddKeepsInvariant(c, w, profileId, a.network, entropy, a.password, a.random, r.value);
    }
  }

  lemma FinalizeKeepsInvariant(c: Crypto, w: World, a: Action)
    requires Invariant(c, w) && a.Finalize?
    ensures Invariant(c, Step(c, w, a))
  {
    hide DecodeStore, AddProfile, TagTaken, ProfileIds, ValidPassword, DuplicateTag, StoreInvariant, ParsePending,
      PendingAad, FinalizeGeneratedProfile;
    var r := FinalizeGeneratedProfile(c, w.store, a.pending, a.password, a.random);
    if r.Ok? {
      var s, p, entropy := FinalizedOpens(c, w.store, a.pending, a.password, a.random, r.value);
      AddKeepsInvariant(c, w, p.profileId, p.network, entropy, a.password, a.random, r.value);
    }
  }

  // An honest, authenticated action finds its profile and opens exactly the payload last written.
  lemma HonestOpens(c: Crypto, w: World, a: Action, s: Store, i: nat, payload: Payload)
    requires Invariant(c, w) && Honest(w, a) && !a.Restore? && !a.Finalize?
    requires DecodeStore(w.store) == Ok(s) && ProfileIndex(s.profiles, a.profileId) == Ok(i)
    requires Authenticate(c, s, a.profileId, a.password) == Ok(payload)
    ensures a.profileId in w.secrets && w.secrets[a.profileId] == Secret(a.password, payload)
    ensures OpenProfile(c, s.registryKey, s.profiles[i], a.password) == Ok(payload)
    ensures PlainPayload(payload) && KeysDistinct(payload.keys)
  {
    hide DecodeStore, StoreInvariant, OpenProfile, PlainPayload, KeysDistinct, SmallPlain;
    KnownProfile(c, s, w.secrets, i);
  }

  lemma AddKeyKeepsInvariant(
    c: Crypto, w: World, a: Action, s: Store, i: nat, payload: Payload, chain: Chain, privateKey: Bytes32,
    origin: Origin, random: Random, m: Mutation<SoftwareKeyInfo>)
    requires Invariant(c, w) && Honest(w, a) && !a.Restore? && !a.Finalize?
    requires DecodeStore(w.store) == Ok(s) && ProfileIndex(s.profiles, a.profileId) == Ok(i)
    requires Authenticate(c, s, a.profileId, a.password) == Ok(payload) && ValidPrivateKey(privateKey)
    requires AddKey(c, s, i, payload, chain, privateKey, origin, a.password, random) == Ok(m)
    ensures Invariant(c, KeyAdded(w, a, Ok(m), Ok(privateKey)))
  {
    hide DecodeStore, StoreInvariant, OpenProfile, PlainPayload, KeysDistinct, Authenticate, AddKey, ValidPrivateKey,
      OnlyKeysChanged, StoreWellFormed, EncodePayload, EncodeStore, Ordered, HasKey, KeyIds, Honest, PayloadWellFormed;
    HonestOpens(c, w, a, s, i, payload);
    StoreCodec(w.store, s);
    var t := AddedKey(c, s, i, payload, chain, privateKey, origin, a.password, random, m);
    var key := NewKey(m.value.keyId, chain, privateKey, origin);
    var unordered := payload.(keys := payload.keys + [key]);
    AddedKeyPlain(payload, key);
    AppendedWellFormed(c, s, i, a.password, payload, key);
    PlainPayloadFits(Ordered(unordered));
    KeysChangedIds(s, t, i, Ordered(unordered).keys);
    KeysChangedInvariant(c, s, w.secrets, i, t, a.password, Ordered(unordered));
  }

  lemma AppendedWellFormed(c: Crypto, s: Store, i: nat, password: seq<byte>, payload: Payload, key: KeyRecord)
    requires i < |s.profiles| && OpenProfile(c, s.registryKey, s.profiles[i], password) == Ok(payload)
    requires PlainKey(key) && ValidPrivateKey(key.privateKey) && key.keyId !in KeyIds(payload.keys)
    requires |payload.keys| < MAX_KEYS
    ensures PayloadWellFormed(Ordered(payload.(keys := payload.keys + [key])))
  {
    hide OpenProfile, PayloadWellFormed, KeyIds, KeyWellFormed, ValidPrivateKey, DuplicateTag, Ordered, KeysValid;
    OpenedBelongs(c, s.registryKey, s.profiles[i], password, payload);
    NewKeyWellFormed(key);
    AppendedBelongs(c, s.registryKey, s.profiles[i], payload, key);
  }

  lemma DeriveKeepsInvariant(c: Crypto, w: World, a: Action)
    requires Invariant(c, w) && a.Derive? && Honest(w, a)
    ensures Invariant(c, Step(c, w, a))
  {
    hide DecodeStore, StoreInvariant, Authenticate, AddKey, ProfileIndex, ValidPrivateKey, KeyAdded, Honest, Reverse;
    var r := DeriveSoftwareKey(c, w.store, a.profileId, a.password, a.chain, a.accountIndex, a.random);
    if r.Ok? {
      var s := DecodeStore(w.store).value;
      var i := ProfileIndex(s.profiles, a.profileId).value;
      var payload := Authenticate(c, s, a.profileId, a.password).value;
      var network := s.profiles[i].network;
      var privateKey := DerivePrivateKey(c, payload.entropy, a.chain, network, a.accountIndex).value;
      HonestOpens(c, w, a, s, i, payload);
      AddKeyKeepsInvariant(
        c, w, a, s, i, payload, a.chain, privateKey, Derived(a.accountIndex), a.random, r.value);
    } else {
      UnchangedOnError(w, a, r, DerivedKey(c, w, a));
    }
  }

  lemma UnchangedOnError(w: World, a: Action, m: Parse<Mutation<SoftwareKeyInfo>>, privateKey: Parse<Bytes32>)
    requires m.Err? && !a.Restore? && !a.Finalize?
    ensures KeyAdded(w, a, m, privateKey) == w
  {
  }

  lemma ImportKeepsInvariant(c: Crypto, w: World, a: Action)
    requires Invariant(c, w) && a.Import? && Honest(w, a)
    ensures Invariant(c, Step(c, w, a))
  {
    hide DecodeStore, StoreInvariant, Authenticate, AddKey, ProfileIndex, KeyAdded, Honest;
    var r := ImportSoftwareKey(c, w.store, a.profileId, a.password, a.chain, a.privateKey, a.random);
    if r.Ok? {
      var s := DecodeStore(w.store).value;
      var i := ProfileIndex(s.profiles, a.profileId).value;
      var payload := Authenticate(c, s, a.profileId, a.password).value;
      AddKeyKeepsInvariant(c, w, a, s, i, payload, a.chain, a.privateKey, Imported, a.random, r.value);
    } else {
      UnchangedOnError(w, a, r, if |a.privateKey| == 32 then Ok(a.privateKey) else Err(InvalidPrivateKey));
    }
  }

  lemma GenerateKeepsInvariant(c: Crypto, w: World, a: Action)
    requires Invariant(c, w) && a.Generate? && Honest(w, a)
    ensures Invariant(c, Step(c, w, a))
  {
    hide DecodeStore, StoreInvariant, Authenticate, AddKey, ProfileIndex, KeyAdded, Honest, ValidPrivateKey,
      GeneratePrivateKey;
    var r := GenerateSoftwareKey(c, w.store, a.profileId, a.password, a.chain, a.random);
    if r.Ok? {
      var s := DecodeStore(w.store).value;
      var i := ProfileIndex(s.profiles, a.profileId).value;
      var payload := Authenticate(c, s, a.profileId, a.password).value;
      var privateKey := GeneratePrivateKey(a.random.privateKeys).value;
      AddKeyKeepsInvariant(c, w, a, s, i, payload, a.chain, privateKey, Generated, a.random, r.value);
    } else {
      UnchangedOnError(w, a, r, GeneratePrivateKey(a.random.privateKeys));
    }
  }

  lemma ChangePasswordKeepsInvariant(c: Crypto, w: World, a: Action)
    requires Invariant(c, w) && a.ChangePassword? && Honest(w, a)
    ensures Invariant(c, Step(c, w, a))
  {
    hide DecodeStore, StoreInvariant, Authenticate, ProfileIndex, Honest, ChangeProfilePassword, OpenProfile,
      OnlyKeysChanged, StoreWellFormed, PlainPayload, KeysDistinct;
    var r := ChangeProfilePassword(c, w.store, a.profileId, a.password, a.newPassword, a.random);
    if r.Ok? {
      var s := DecodeStore(w.store).value;
      var i, payload, t := ChangedPassword(c, w.store, s, a.profileId, a.password, a.newPassword, a.random, r.value);
      HonestOpens(c, w, a, s, i, payload);
      KeysChangedInvariant(c, s, w.secrets, i, t, a.newPassword, payload);
    }
  }

  lemma DeleteKeyKeepsInvariant(c: Crypto, w: World, a: Action)
    requires Invariant(c, w) && a.DeleteKey? && Honest(w, a)
    ensures Invariant(c, Step(c, w, a))
  {
    hide DecodeStore, StoreInvariant, Authenticate, ProfileIndex, Honest, DeleteSoftwareKey, OpenProfile, WithoutKey,
      OnlyKeysChanged, StoreWellFormed, PlainPayload, KeysDistinct;
    var r := DeleteSoftwareKey(c, w.store, a.profileId, a.keyId, a.password, a.random);
    if r.Ok? {
      var s := DecodeStore(w.store).value;
      var i, payload, t := DeletedKey(c, w.store, s, a.profileId, a.keyId, a.password, a.random, r.value);
      HonestOpens(c, w, a, s, i, payload);
      KeptPlain(c, s.registryKey, s.profiles[i], a.password, payload, a.keyId);
      KeysChangedInvariant(
        c, s, w.secrets, i, t, a.password, payload.(keys := WithoutKey(payload.keys, a.keyId)));
    }
  }

  lemma KeptPlain(
    c: Crypto, registryKey: Bytes32, p: Profile, password: seq<byte>, payload: Payload, keyId: Bytes16)
    requires OpenProfile(c, registryKey, p, password) == Ok(payload)
    requires PlainPayload(payload) && KeysDistinct(payload.keys)
    ensures PlainPayload(payload.(keys := WithoutKey(payload.keys, keyId)))
    ensures KeysDistinct(WithoutKey(payload.keys, keyId))
  {
    hide OpenProfile, KeyWellFormed, Less, WithoutKey, Ordered, PlainKey, Belongs;
    OpenedBelongs(c, registryKey, p, password, payload);
    WithoutKeyKeeps(payload.keys, keyId);
    var kept := WithoutKey(payload.keys, keyId);
    forall i | 0 <= i < |kept| ensures PlainKey(kept[i]) {
      assert kept[i] in payload.keys;
    }
    forall i, j | 0 <= i < j < |kept|
      ensures kept[i].chain != kept[j].chain || kept[i].privateKey != kept[j].privateKey
    {
      assert kept[i] in payload.keys && kept[j] in payload.keys;
      assert KeyIdLess(kept[i], kept[j]);
      LessAsymmetric(kept[i].keyId, kept[j].keyId);
    }
  }

  lemma DeleteKeepsInvariant(c: Crypto, w: World, a: Action)
    requires Invariant(c, w) && a.Delete?
    ensures Invariant(c, Step(c, w, a))
  {
    hide DecodeStore, StoreInvariant, DeleteProfile, StoreWellFormed;
    var r := DeleteProfile(c, w.store, a.profileId, a.password);
    if r.Ok? {
      var s := DecodeStore(w.store).value;
      var i, t := DeletedProfile(c, w.store, s, a.profileId, a.password, r.value);
      DeletedInvariant(c, s, w.secrets, i, t);
    }
  }

  lemma DeletedInvariant(c: Crypto, s: Store, secrets: map<Bytes16, Secret>, i: nat, t: Store)
    requires StoreInvariant(c, s, secrets) && i < |s.profiles| && StoreWellFormed(t)
    requires t == s.(profiles := s.profiles[..i] + s.profiles[i + 1..])
    ensures StoreInvariant(c, t, secrets - {s.profiles[i].profileId})
  {
    hide StoreWellFormed, ProfileKnownBy, HasProfile, TagsDistinct;
    RemainingKnown(c, s, secrets, i);
    RemainingIds(s.profiles, secrets, i);
    RemovedTagsDistinct(s.profiles, i);
  }

  lemma RemainingKnown(c: Crypto, s: Store, secrets: map<Bytes16, Secret>, i: nat)
    requires StoreInvariant(c, s, secrets) && i < |s.profiles|
    ensures var left := s.profiles[..i] + s.profiles[i + 1..];
      forall j | 0 <= j < |left| ::
        ProfileKnownBy(c, s.registryKey, left[j], secrets - {s.profiles[i].profileId})
  {
    hide StoreWellFormed, ProfileInvariant, HasProfile, TagsDistinct;
    var id := s.profiles[i].profileId;
    var left := s.profiles[..i] + s.profiles[i + 1..];
    forall j | 0 <= j < |left| ensures ProfileKnownBy(c, s.registryKey, left[j], secrets - {id}) {
      var k := if j < i then j else j + 1;
      assert left[j] == s.profiles[k];
      assert ProfileKnownBy(c, s.registryKey, s.profiles[k], secrets);
      DistinctIds(s, i, k);
    }
  }

  lemma RemainingIds(profiles: seq<Profile>, secrets: map<Bytes16, Secret>, i: nat)
    requires i < |profiles| && forall id | id in secrets :: HasProfile(profiles, id)
    ensures var left := profiles[..i] + profiles[i + 1..];
      forall id | id in secrets - {profiles[i].profileId} :: HasProfile(left, id)
  {
    var left := profiles[..i] + profiles[i + 1..];
    forall id | id in secrets - {profiles[i].profileId} ensures HasProfile(left, id) {
      var k :| 0 <= k < |profiles| && profiles[k].profileId == id;
      assert left[if k < i then k else k - 1] == profiles[k];
    }
  }

  lemma RemovedTagsDistinct(profiles: seq<Profile>, i: nat)
    requires TagsDistinct(profiles) && i < |profiles|
    ensures TagsDistinct(profiles[..i] + profiles[i + 1..])
  {
    var left := profiles[..i] + profiles[i + 1..];
    forall a, b | 0 <= a < b < |left| ensures left[a].duplicateTag != left[b].duplicateTag {
      assert left[a] == profiles[if a < i then a else a + 1] && left[b] == profiles[if b < i then b else b + 1];
    }
  }

  // ----- every run

  lemma StepKeepsInvariant(c: Crypto, w: World, a: Action)
    requires Invariant(c, w) && Honest(w, a)
    ensures Invariant(c, Step(c, w, a))
  {
    hide Invariant, Step, Honest;
    match a
    case Restore(_, _, _, _) => RestoreKeepsInvariant(c, w, a);
    case Finalize(_, _, _) => FinalizeKeepsInvariant(c, w, a);
    case Derive(_, _, _, _, _) => DeriveKeepsInvariant(c, w, a);
    case Import(_, _, _, _, _) => ImportKeepsInvariant(c, w, a);
    case Generate(_, _, _, _) => GenerateKeepsInvariant(c, w, a);
    case ChangePassword(_, _, _, _) => ChangePasswordKeepsInvariant(c, w, a);
    case DeleteKey(_, _, _, _) => DeleteKeyKeepsInvariant(c, w, a);
    case Delete(_, _) => DeleteKeepsInvariant(c, w, a);
  }

  lemma {:induction false} RunKeepsInvariant(c: Crypto, w: World, actions: seq<Action>)
    requires Invariant(c, w) && HonestRun(c, w, actions)
    ensures Invariant(c, Run(c, w, actions))
  {
    hide Invariant, Step, Honest;
    if actions != [] {
      var front := actions[..|actions| - 1];
      assert HonestRun(c, w, front) by {
        forall i | 0 <= i < |front| ensures Honest(Run(c, w, front[..i]), front[i]) {
          assert front[..i] == actions[..i];
          assert Honest(Run(c, w, actions[..i]), actions[i]);
        }
      }
      RunKeepsInvariant(c, w, front);
      StepKeepsInvariant(c, Run(c, w, front), actions[|actions| - 1]);
    }
  }

  // What the invariant says of a reached Store.
  ghost predicate Sound(c: Crypto, w: World) {
    && DecodeStore(w.store).Ok?
    && var s := DecodeStore(w.store).value;
    && StrictlySorted(ProfileLess, s.profiles) && |s.profiles| <= MAX_PROFILES
    && |w.store| <= 2_873_648
    && (forall id | id in w.secrets :: HasProfile(s.profiles, id))
    && (forall i | 0 <= i < |s.profiles| :: SoundProfile(c, s, s.profiles[i], w.secrets))
    && (forall i, j | 0 <= i < j < |s.profiles| ::
          s.profiles[i].network != s.profiles[j].network || !SameEntropy(s.profiles[i], s.profiles[j], w.secrets))
  }

  ghost predicate SoundProfile(c: Crypto, s: Store, p: Profile, secrets: map<Bytes16, Secret>) {
    && p.profileId in secrets
    && var secret := secrets[p.profileId];
    && Authenticate(c, s, p.profileId, secret.password) == Ok(secret.payload)
    && p.index == IndexOfKeys(secret.payload.keys)
    && StrictlySorted(KeyIdLess, secret.payload.keys) && |secret.payload.keys| <= MAX_KEYS
    && KeysDistinct(secret.payload.keys)
    && |p.cipher.ciphertext| <= MAX_PLAIN_PAYLOAD
  }

  ghost predicate SameEntropy(p: Profile, q: Profile, secrets: map<Bytes16, Secret>) {
    p.profileId in secrets && q.profileId in secrets
    && secrets[p.profileId].payload.entropy == secrets[q.profileId].payload.entropy
  }

  lemma InvariantProfileSound(c: Crypto, s: Store, secrets: map<Bytes16, Secret>, i: nat)
    requires StoreInvariant(c, s, secrets) && i < |s.profiles|
    ensures SoundProfile(c, s, s.profiles[i], secrets)
    ensures var secret := secrets[s.profiles[i].profileId];
      DuplicateTag(c, s.registryKey, s.profiles[i].network, secret.payload.entropy) == s.profiles[i].duplicateTag
    ensures SmallPlain(s.profiles[i])
  {
    hide OpenProfile, KeyWellFormed, Extension, ProfileWellFormed, PlainPayload, KeysDistinct, DuplicateTag, Ordered,
      PlainProfile, TagsDistinct;
    KnownProfile(c, s, secrets, i);
    var p := s.profiles[i];
    var secret := secrets[p.profileId];
    OpenedBelongs(c, s.registryKey, p, secret.password, secret.payload);
    ProfileIndexFinds(s.profiles, i);
  }

  lemma InvariantIsSound(c: Crypto, w: World)
    requires Invariant(c, w)
    ensures Sound(c, w)
  {
    hide DecodeStore, SoundProfile, StoreWellFormed, ProfileKnownBy, EncodeStore, SmallPlain, DuplicateTag;
    var s := DecodeStore(w.store).value;
    StoreCodec(w.store, s);
    forall i | 0 <= i < |s.profiles| ensures SoundProfile(c, s, s.profiles[i], w.secrets) && SmallPlain(s.profiles[i]) {
      InvariantProfileSound(c, s, w.secrets, i);
    }
    SortedStore(s);
    StoreSize(s);
    StoreEncoding(s);
    forall i, j | 0 <= i < j < |s.profiles|
      ensures s.profiles[i].network != s.profiles[j].network || !SameEntropy(s.profiles[i], s.profiles[j], w.secrets)
    {
      InvariantProfileSound(c, s, w.secrets, i);
      InvariantProfileSound(c, s, w.secrets, j);
      assert s.profiles[i].duplicateTag != s.profiles[j].duplicateTag;
    }
  }

  lemma SortedStore(s: Store)
    requires StoreWellFormed(s)
    ensures StrictlySorted(ProfileLess, s.profiles) && Sort(ProfileLess, s.profiles) == s.profiles
    ensures |s.profiles| <= MAX_PROFILES
  {
    SortKeepsProfiles(s.profiles);
  }

  // Every Store reached from an empty one by honest actions is accepted, ordered, small, and
  // opens to exactly what was last written; no key and no mnemonic is there twice.
  lemma RunsAreSound(c: Crypto, registryKey: Bytes32, store: seq<byte>, actions: seq<Action>)
    requires CreateEmptyStore(Some(registryKey)) == Ok(store)
    requires HonestRun(c, World(store, map[]), actions)
    ensures Sound(c, Run(c, World(store, map[]), actions))
  {
    hide CreateEmptyStore, Invariant, Sound, Run, HonestRun;
    EmptyStoreInvariant(c, registryKey);
    var w := World(store, map[]);
    RunKeepsInvariant(c, w, actions);
    InvariantIsSound(c, Run(c, w, actions));
  }
}
