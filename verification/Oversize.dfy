// When an added key leaves a Store that can be read again: exactly while the payload encodes to
// at most 1 MiB, which nothing checks before it is sealed.
module Oversize {
  import opened Wrappers
  import opened Bytes
  import opened Sorting
  import opened Cbor
  import opened CborTheory
  import opened WalletTypes
  import opened WalletCrypto
  import opened StoreFormat
  import opened StoreFormatTheory
  import opened PayloadTheory
  import opened StoreOps
  import opened SealTheory
  import opened WireSizes
  import opened MutationTheory
  import opened ProfileTheory

  // ----- what a readable encoding must satisfy

  lemma {:induction false} ItemFits(items: seq<Value>, i: nat)
    requires i < |items|
    ensures |Wire(items[i])| <= |WireItems(items)|
  {
    hide Wire;
    if i > 0 {
      ItemFits(items[1..], i - 1);
    }
  }

  lemma {:induction false} EntryFits(entries: seq<Entry>, i: nat)
    requires i < |entries|
    ensures |Wire(entries[i].value)| <= |WireEntries(entries)|
  {
    hide Wire;
    if i > 0 {
      EntryFits(entries[1..], i - 1);
    }
  }

  lemma {:induction false} SmallIsMachineSized(v: Value)
    requires |Wire(v)| < 0x1_0000_0000_0000_0000
    ensures MachineSized(v)
  {
    match v
    case Array(items) =>
      forall i | 0 <= i < |items| ensures MachineSized(items[i]) {
        ItemFits(items, i);
        SmallIsMachineSized(items[i]);
      }
    case Map(entries) =>
      forall i | 0 <= i < |entries| ensures MachineSized(entries[i].value) {
        EntryFits(entries, i);
        SmallIsMachineSized(entries[i].value);
      }
    case Tag(_, inner) => SmallIsMachineSized(inner);
    case _ =>
  }

  lemma ReadableIsWithin(v: Value, bytes: seq<byte>, limits: Limits)
    requires Encode(v) == Ok(bytes) && Decode(bytes, limits).Ok?
    ensures Within(v, limits, limits.maxDepth)
  {
    hide Wire, Normalize, Canonical, Within, Encodable, MachineSized, Decode;
    var normal, w := Normalize(v), Decode(bytes, limits).value;
    DecodeExactly(bytes, limits, w);
    SmallIsMachineSized(w);
    SmallIsMachineSized(normal);
    NormalizeIsCanonical(v);
    WireIsPrefixFree(w, normal, [], []);
    NormalizeWithin(v, limits, limits.maxDepth);
  }

  lemma ArrayItemWithin(items: seq<Value>, i: nat, limits: Limits, budget: nat)
    requires Within(Array(items), limits, budget) && i < |items|
    ensures budget > 0 && Within(items[i], limits, budget - 1)
  {
  }

  lemma FieldWithin(known: seq<Entry>, unknown: seq<Entry>, i: nat, limits: Limits, budget: nat)
    requires Within(Map(known + unknown), limits, budget) && i < |known|
    ensures budget > 0 && Within(known[i].value, limits, budget - 1)
  {
    assert (known + unknown)[i] == known[i];
  }

  lemma ProfileWithin(p: Profile, budget: nat)
    requires Within(ProfileToValue(p), STORE, budget)
    ensures |p.cipher.ciphertext| <= MAX_CIPHERTEXT
  {
    hide Within;
    FieldWithin(ProfileKnown(p), p.unknown, 5, STORE, budget);
    FieldWithin(CipherKnown(p.cipher), p.cipher.unknown, 2, STORE, budget - 1);
    BytesWithin(p.cipher.ciphertext, STORE, budget - 2);
  }

  lemma BytesWithin(b: seq<byte>, limits: Limits, budget: nat)
    requires Within(Bytes(b), limits, budget)
    ensures |b| <= limits.maxString
  {
  }

  // No Store that is read back holds a ciphertext of more than 1 MiB.
  lemma ReadableIsSmall(s: Store, bytes: seq<byte>, i: nat)
    requires EncodeStore(s) == Ok(bytes) && DecodeStore(bytes).Ok? && i < |s.profiles|
    ensures |s.profiles[i].cipher.ciphertext| <= MAX_CIPHERTEXT
  {
    hide Within, ParseStore, Decode, Encode, ProfileToValue, Sort, ProfileValues;
    ReadableIsWithin(StoreToValue(s), bytes, STORE);
    var sorted := Sort(ProfileLess, s.profiles);
    FieldWithin(StoreKnown(s), s.unknown, 3, STORE, 32);
    SortPermutes(ProfileLess, s.profiles);
    PermutationMembers(sorted, s.profiles);
    assert s.profiles[i] in sorted;
    var j :| 0 <= j < |sorted| && sorted[j] == s.profiles[i];
    ArrayItemWithin(ProfileValues(sorted), j, STORE, 31);
    ProfileWithin(s.profiles[i], 30);
  }

  // ----- the exact condition

  // Adding a key to an accepted Store gives one that is accepted exactly when the new payload
  // encodes to at most 1 MiB; and then the profile opens to it.
  lemma AddedKeyIsReadable(
    c: Crypto, s: Store, i: nat, payload: Payload, chain: Chain, privateKey: Bytes32, origin: Origin,
    password: seq<byte>, random: Random, m: Mutation<SoftwareKeyInfo>)
    requires StoreWellFormed(s) && i < |s.profiles|
    requires OpenProfile(c, s.registryKey, s.profiles[i], password) == Ok(payload)
    requires ValidPrivateKey(privateKey)
    requires AddKey(c, s, i, payload, chain, privateKey, origin, password, random) == Ok(m)
    ensures var updated := payload.(keys := payload.keys + [NewKey(m.value.keyId, chain, privateKey, origin)]);
      && EncodePayload(updated).Ok?
      && (DecodeStore(m.store).Ok? <==> |EncodePayload(updated).value| <= MAX_CIPHERTEXT)
  {
    hide OpenProfile, EncodePayload, EncodeStore, AddKey, StoreWellFormed, ValidPrivateKey, Sort, Ordered, DecodeStore,
      OnlyKeysChanged;
    var t := AddedKey(c, s, i, payload, chain, privateKey, origin, password, random, m);
    var updated := payload.(keys := payload.keys + [NewKey(m.value.keyId, chain, privateKey, origin)]);
    OrderedEncoding(updated);
    KeysChangedIds(s, t, i, Ordered(updated).keys);
    if DecodeStore(m.store).Ok? {
      ReadableIsSmall(t, m.store, i);
    }
  }

  // ----- a Store that a new key makes unreadable

  lemma {:induction false} FieldsCanonical(known: seq<Entry>)
    requires KnownKeys(known) && forall i | 0 <= i < |known| :: Canonical(known[i].value)
    ensures Canonical(Map(known))
  {
    forall i, j | 0 <= i < j < |known| ensures known[i].key < known[j].key {
    }
  }

  lemma LeafCanonical(b: seq<byte>, n: u64)
    ensures Canonical(Bytes(b)) && Canonical(UInt(n))
  {
  }

  lemma PlainProfileCanonical(p: Profile)
    requires PlainProfile(p)
    ensures Canonical(ProfileToValue(p))
  {
    hide Canonical, IndexToValues;
    forall b: seq<byte>, n: u64 ensures Canonical(Bytes(b)) && Canonical(UInt(n)) {
      LeafCanonical(b, n);
    }
    FieldsCanonical(KdfKnown(p.kdf));
    assert KdfKnown(p.kdf) + [] == KdfKnown(p.kdf);
    FieldsCanonical(CipherKnown(p.cipher));
    assert CipherKnown(p.cipher) + [] == CipherKnown(p.cipher);
    forall i | 0 <= i < |p.aadIndex| ensures Canonical(p.aadIndex[i]) {
      FieldsCanonical(IndexKnown(p.index[i]));
    }
    ArrayCanonical(p.aadIndex);
    FieldsCanonical(ProfileKnown(p));
    assert ProfileKnown(p) + [] == ProfileKnown(p);
  }

  lemma ArrayCanonical(items: seq<Value>)
    requires forall i | 0 <= i < |items| :: Canonical(items[i])
    ensures Canonical(Array(items))
  {
  }

  // A Store of one plain profile is encoded while its ciphertext leaves room for the rest.
  lemma OneProfileStore(registryKey: Bytes32, p: Profile)
    requires PlainProfile(p) && |p.cipher.ciphertext| <= 4 * MAX_CIPHERTEXT && |p.index| <= MAX_KEYS
    ensures EncodeStore(Store(registryKey, [p], [])).Ok?
  {
    hide Canonical, ProfileToValue, Wire, WireEntry, Normalize, Encodable, PlainProfile;
    var s := Store(registryKey, [p], []);
    OneSorted(p);
    var values := ProfileValues([p]);
    OneValue(p);
    PlainProfileCanonical(p);
    ArrayCanonical(values);
    forall b: seq<byte>, n: u64 ensures Canonical(Bytes(b)) && Canonical(UInt(n)) {
      LeafCanonical(b, n);
    }
    FieldsCanonical(StoreKnown(s));
    assert StoreKnown(s) + [] == StoreKnown(s);
    CanonicalIsNormal(StoreToValue(s));
    OneProfileSize(s, p);
  }

  lemma OneSorted(p: Profile)
    ensures Sort(ProfileLess, [p]) == [p]
  {
    assert [p][..0] == [];
    assert Insert(ProfileLess, [], p) == [p];
  }

  lemma OneValue(p: Profile)
    ensures ProfileValues([p]) == [ProfileToValue(p)]
  {
    hide ProfileToValue;
  }

  lemma OneProfileSize(s: Store, p: Profile)
    requires s.profiles == [p] && s.unknown == [] && StoreKnown(s)[3].value == Array([ProfileToValue(p)])
    requires PlainProfile(p) && |p.cipher.ciphertext| <= 4 * MAX_CIPHERTEXT && |p.index| <= MAX_KEYS
    ensures |Wire(StoreToValue(s))| <= MAX_STORE_BYTES
  {
    hide Wire, WireEntry, ProfileToValue, PlainProfile, Sort, ProfileValues;
    ProfileSize(p);
    var n := 138 + |p.cipher.ciphertext| + 21 * |p.index|;
    ArraySize([ProfileToValue(p)], n);
    BytesSize(MAGIC);
    SmallUInt(STORE_VERSION);
    BytesSize(s.registryKey);
    EntrySize(0, Bytes(MAGIC), 5);
    EntrySize(1, UInt(STORE_VERSION), 1);
    EntrySize(2, Bytes(s.registryKey), 34);
    EntrySize(3, Array([ProfileToValue(p)]), 3 + n);
    assert StoreKnown(s) + [] == StoreKnown(s);
    Sum4(6, 2, 35, 4 + n);
    MapSize(StoreKnown(s), [6, 2, 35, 4 + n]);
  }

  lemma AadEncodes(registryKey: Bytes32, p: Profile)
    requires PlainProfile(p)
    ensures Aad(registryKey, p).Ok?
  {
    hide Canonical, Encodable, IndexToValues;
    forall b: seq<byte>, n: u64 ensures Canonical(Bytes(b)) && Canonical(UInt(n)) {
      LeafCanonical(b, n);
    }
    forall i | 0 <= i < |p.aadIndex| ensures Canonical(p.aadIndex[i]) {
      FieldsCanonical(IndexKnown(p.index[i]));
    }
    ArrayCanonical(p.aadIndex);
    ArrayCanonical(AadValue(registryKey, p).items);
    CanonicalIsNormal(AadValue(registryKey, p));
  }

  // Fills the payload up to 1 MiB with an extension field.
  const FILLER: nat := MAX_CIPHERTEXT - 44

  function FullPayload(keys: seq<KeyRecord>): Payload {
    Payload(ZERO32, keys, [Entry(2, Bytes(seq(FILLER, i => 0)))])
  }

  lemma FullPayloadSize(keys: seq<KeyRecord>)
    requires KeysWellFormed(keys) && |keys| <= 1
    ensures PayloadWellFormed(FullPayload(keys)) && EncodePayload(FullPayload(keys)).Ok?
    ensures |EncodePayload(FullPayload(keys)).value| == MAX_CIPHERTEXT + |WireItems(KeyValues(keys))|
  {
    hide EncodePayload, KeyWellFormed, Wire, WireItems, KeyValues;
    var p := FullPayload(keys);
    FillerExtends();
    PayloadEncoding(p);
    PayloadWire(p);
    FillerSize(p.unknown[0]);
    HeadSize(5, 3);
    HeadSize(0, 1);
    HeadSize(4, |keys|);
    FillerEntropy(Entry(0, Bytes(p.entropy)));
  }

  lemma FillerExtends()
    ensures Extension(FullPayload([]).unknown, 2, PAYLOAD, 31)
  {
    BytesAdmissible(seq(FILLER, i => 0), PAYLOAD, 31);
  }

  lemma FillerSize(e: Entry)
    requires e.key == 2 && e.value.Bytes? && |e.value.bytes| == FILLER
    ensures |WireEntries([e])| == 6 + FILLER
  {
    hide Wire;
    BytesSize(e.value.bytes);
    HeadSize(0, 2);
    assert [e][1..] == [];
  }

  lemma FillerEntropy(e: Entry)
    requires e.key == 0 && e.value.Bytes? && |e.value.bytes| == 32
    ensures |WireEntry(e)| == 35
  {
    hide Wire;
    BytesSize(e.value.bytes);
    HeadSize(0, 0);
  }

  const ONE32: Bytes32 := [1, 0, 0, 0, 0, 0, 0, 0, 0, 0, 0, 0, 0, 0, 0, 0] + ZERO16
  const PASSWORD: seq<byte> := [0x61]
  const DRAWS := Random([ZERO16], None, Some([0, 0, 0, 0, 0, 0, 0, 0, 0, 0, 0, 0]), [], None)

  lemma ConstantsAreValid()
    ensures ValidPassword(PASSWORD) && ValidPrivateKey(ONE32)
  {
    assert ONE32[0] == 1;
    assert Utf8Step(PASSWORD) == 1 && PASSWORD[1..] == [];
  }

  // The full payload, sealed into a profile without keys.
  function FullProfile(c: Crypto): Parse<Profile> {
    SealProfile(c, ZERO32, EmptyProfile(c), FullPayload([]), PASSWORD, DRAWS.nonce)
  }

  function EmptyProfile(c: Crypto): Profile {
    UnsealedProfile(ZERO16, Testnet, DuplicateTag(c, ZERO32, Testnet, ZERO32), [], ZERO16, DRAWS.nonce.value)
  }

  lemma FullProfileOpens(c: Crypto)
    ensures FullProfile(c).Ok?
    ensures var p := FullProfile(c).value;
      && PlainProfile(p) && ProfileWellFormed(p) && |p.cipher.ciphertext| == MAX_CIPHERTEXT && p.index == []
      && p.profileId == ZERO16
      && OpenProfile(c, ZERO32, p, PASSWORD) == Ok(FullPayload([]))
  {
    hide EncodePayload, OpenProfile, DuplicateTag, FullPayload, Aad, ValidPassword, PayloadWellFormed, ProfileWellFormed;
    var u := EmptyProfile(c);
    ConstantsAreValid();
    FullPayloadSize([]);
    NoItems();
    AadEncodes(ZERO32, u);
    var p := FullProfile(c).value;
    FullBelongs(c, u);
    SealOpens(c, ZERO32, u, FullPayload([]), PASSWORD, DRAWS.nonce, p);
    SealAuthenticates(c, ZERO32, u, FullPayload([]), PASSWORD, DRAWS.nonce, p);
    UnsealedWellFormed(u);
    SealedWellFormed(u, p);
  }

  lemma NoItems()
    ensures WireItems(KeyValues([])) == [] && KeysWellFormed([])
  {
  }

  lemma FullBelongs(c: Crypto, u: Profile)
    requires PayloadWellFormed(FullPayload([]))
    requires u.network == Testnet && u.duplicateTag == DuplicateTag(c, ZERO32, Testnet, ZERO32) && u.index == []
    ensures Belongs(c, ZERO32, u, FullPayload([])) && Ordered(FullPayload([])) == FullPayload([])
    ensures u.index == IndexFromPayload(FullPayload([]))
  {
    hide DuplicateTag, PayloadWellFormed;
  }

  // The new key's record, and the payload with it, are past the limit.
  lemma FullPayloadGrows()
    ensures var key := NewKey(ZERO16, Chain.Symbol, ONE32, Imported);
      && KeysWellFormed([key]) && EncodePayload(FullPayload([key])).Ok?
      && MAX_CIPHERTEXT < |EncodePayload(FullPayload([key])).value| <= 2 * MAX_CIPHERTEXT
  {
    hide EncodePayload, FullPayload, Wire, KeyWellFormed;
    var key := NewKey(ZERO16, Chain.Symbol, ONE32, Imported);
    NewKeyWellFormed(key);
    assert KeysWellFormed([key]);
    FullPayloadSize([key]);
    KeySize(key);
    assert KeyValues([key]) == [KeyToValue(key)];
    assert WireItems([KeyToValue(key)]) == Wire(KeyToValue(key)) + [];
  }

  // Importing a key into an accepted Store whose payload already takes 1 MiB succeeds, and
  // returns a Store that is not accepted any more: with every cipher.
  lemma KeyTooMany(c: Crypto) returns (store: seq<byte>, m: Mutation<SoftwareKeyInfo>)
    ensures DecodeStore(store).Ok?
    ensures ImportSoftwareKey(c, store, ZERO16, PASSWORD, Chain.Symbol, ONE32, DRAWS) == Ok(m)
    ensures DecodeStore(m.store).Err?
  {
    hide DecodeStore, EncodeStore, OpenProfile, ValidPrivateKey, ValidPassword, EncodePayload, FullPayload, FullProfile,
      AddKey, ProfileWellFormed, PlainProfile;
    FullProfileOpens(c);
    ConstantsAreValid();
    var p := FullProfile(c).value;
    var s := Store(ZERO32, [p], []);
    OneProfileStore(ZERO32, p);
    store := EncodeStore(s).value;
    OneProfileWellFormed(p);
    StoreCodec(store, s);
    assert ProfileIndex(s.profiles, ZERO16) == Ok(0);
    m := FullAdds(c, p);
    AddedKeyIsReadable(c, s, 0, FullPayload([]), Chain.Symbol, ONE32, Imported, PASSWORD, DRAWS, m);
    FullPayloadGrows();
    FullWithKey(NewKey(ZERO16, Chain.Symbol, ONE32, Imported));
  }

  lemma OneProfileWellFormed(p: Profile)
    requires ProfileWellFormed(p)
    ensures StoreWellFormed(Store(ZERO32, [p], []))
  {
    hide ProfileWellFormed;
  }

  lemma FullWithKey(key: KeyRecord)
    ensures FullPayload([]).(keys := FullPayload([]).keys + [key]) == FullPayload([key])
    ensures FullPayload([]).keys == []
  {
    assert [] + [key] == [key];
  }

  lemma FullAdds(c: Crypto, p: Profile) returns (m: Mutation<SoftwareKeyInfo>)
    requires FullProfile(c) == Ok(p) && PlainProfile(p) && p.index == []
    ensures AddKey(c, Store(ZERO32, [p], []), 0, FullPayload([]), Chain.Symbol, ONE32, Imported, PASSWORD, DRAWS) == Ok(m)
    ensures m.value.keyId == ZERO16
  {
    hide EncodeStore, EncodePayload, FullPayload, FullProfile, SealProfile, IndexFromPayload, PlainProfile, MergeIndex;
    var key := NewKey(ZERO16, Chain.Symbol, ONE32, Imported);
    FullWithKey(key);
    FullPayloadGrows();
    var updated := FullPayload([key]);
    var index := IndexFromPayload(updated);
    FullRelists(p, key);
    var u := Relisted(p, index, p.kdf.salt);
    FullSeals(c, u, updated);
    var q := SealProfile(c, ZERO32, u, updated, PASSWORD, DRAWS.nonce).value;
    SealedPlain(c, u, updated, q);
    OneProfileStore(ZERO32, q);
    var s := Store(ZERO32, [p], []);
    assert s.profiles[0 := q] == [q];
    m := Mutation(EncodeStore(Store(ZERO32, [q], [])).value, SoftwareKeyInfo(ZERO16, Chain.Symbol, Imported));
  }

  lemma FullRelists(p: Profile, key: KeyRecord)
    requires PlainProfile(p) && p.index == []
    ensures var u := Relisted(p, IndexFromPayload(FullPayload([key])), p.kdf.salt); PlainProfile(u) && |u.index| == 1
  {
    var index := IndexFromPayload(FullPayload([key]));
    assert |index| == 1 && index[1..] == [] && index == [index[0]];
    assert p.aadIndex == [];
    assert IndexKnown(index[0]) + [] == IndexKnown(index[0]);
    assert MergeIndex(index, []) == [Map(IndexKnown(index[0]))] + [];
    assert IndexToValues(index) == [IndexToValue(index[0])];
  }

  lemma FullSeals(c: Crypto, u: Profile, payload: Payload)
    requires PlainProfile(u) && EncodePayload(payload).Ok?
    ensures SealProfile(c, ZERO32, u, payload, PASSWORD, DRAWS.nonce).Ok?
  {
    hide EncodePayload, Aad, ValidPassword;
    ConstantsAreValid();
    AadEncodes(ZERO32, u);
  }

  lemma SealedPlain(c: Crypto, u: Profile, payload: Payload, q: Profile)
    requires PlainProfile(u) && |u.index| <= MAX_KEYS
    requires SealProfile(c, ZERO32, u, payload, PASSWORD, DRAWS.nonce) == Ok(q)
    requires EncodePayload(payload).Ok? && |EncodePayload(payload).value| <= 2 * MAX_CIPHERTEXT
    ensures PlainProfile(q) && |q.cipher.ciphertext| <= 2 * MAX_CIPHERTEXT && |q.index| <= MAX_KEYS
  {
    hide EncodePayload, SealProfile;
    SealOpens(c, ZERO32, u, payload, PASSWORD, DRAWS.nonce, q);
  }
}
