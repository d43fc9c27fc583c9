// A Store (and a payload) is accepted from bytes exactly when it is well formed and those
// bytes are its encoding, extension fields included.
module StoreFormatTheory {
  import opened Wrappers
  import opened Bytes
  import opened Sorting
  import opened Cbor
  import opened CborTheory
  import opened WalletTypes
  import opened StoreFormat

  // ----- well-formed extension fields, and values at a given depth

  ghost predicate Admissible(v: Value, limits: Limits, budget: nat) {
    Canonical(v) && Within(v, limits, budget)
  }

  // Fields that may follow the known keys 0..known-1 of a map whose children have `budget` left.
  ghost predicate Extension(unknown: seq<Entry>, known: nat, limits: Limits, budget: nat) {
    && Ascending(unknown)
    && known + |unknown| <= limits.maxCollection
    && forall i | 0 <= i < |unknown| ::
      && unknown[i].key >= known
      && AllowedUnknown(unknown[i].value)
      && Admissible(unknown[i].value, limits, budget)
  }

  lemma ArrayAdmissible(items: seq<Value>, limits: Limits, budget: nat)
    requires budget > 0
    ensures Admissible(Array(items), limits, budget) <==>
      |items| <= limits.maxCollection && forall i | 0 <= i < |items| :: Admissible(items[i], limits, budget - 1)
  {
  }

  // The value of a field of an admissible map.
  lemma FieldAdmissible(fields: seq<Entry>, key: u64, limits: Limits, budget: nat)
    requires Admissible(Map(fields), limits, budget) && MapValue(fields, key).Some?
    ensures budget > 0 && Admissible(MapValue(fields, key).value, limits, budget - 1)
  {
    var i := MapValueSome(fields, key);
  }

  ghost predicate KnownKeys(known: seq<Entry>) {
    forall i | 0 <= i < |known| :: known[i].key == i
  }

  lemma {:induction false} MapValueFinds(fields: seq<Entry>, i: nat)
    requires Ascending(fields) && i < |fields|
    ensures MapValue(fields, fields[i].key) == Some(fields[i].value)
  {
    if i > 0 {
      MapValueFinds(fields[1..], i - 1);
    }
  }

  lemma {:induction false} MapValueSome(fields: seq<Entry>, key: u64) returns (i: nat)
    requires MapValue(fields, key).Some?
    ensures i < |fields| && fields[i].key == key && MapValue(fields, key) == Some(fields[i].value)
  {
    if fields[0].key == key {
      i := 0;
    } else {
      i := MapValueSome(fields[1..], key);
      i := i + 1;
    }
  }

  lemma {:induction false} UnknownFieldsAll(fields: seq<Entry>, known: nat)
    requires forall i | 0 <= i < |fields| :: fields[i].key >= known
    ensures UnknownFields(fields, known) == fields
  {
    if fields != [] {
      UnknownFieldsAll(fields[1..], known);
    }
  }

  lemma {:induction false} UnknownFieldsDrop(known: seq<Entry>, rest: seq<Entry>, k: nat)
    requires forall i | 0 <= i < |known| :: known[i].key < k
    ensures UnknownFields(known + rest, k) == UnknownFields(rest, k)
  {
    if known == [] {
      assert known + rest == rest;
    } else {
      assert (known + rest)[1..] == known[1..] + rest;
      UnknownFieldsDrop(known[1..], rest, k);
    }
  }

  // An ascending map that has the keys 0..k-1 starts with them.
  lemma {:induction false} KnownComeFirst(fields: seq<Entry>, k: nat)
    requires Ascending(fields) && k < 0x1_0000_0000_0000_0000
    requires forall j: u64 | j < k :: MapValue(fields, j).Some?
    ensures k <= |fields| && KnownKeys(fields[..k])
    ensures forall i | k <= i < |fields| :: fields[i].key >= k
  {
    if k > 0 {
      KnownComeFirst(fields, k - 1);
      var i := MapValueSome(fields, k - 1);
      assert fields[k - 1].key == k - 1;
    }
  }

  lemma FieldsSplit(fields: seq<Entry>, known: seq<Entry>)
    requires Ascending(fields) && KnownKeys(known) && |known| < 0x1_0000_0000_0000_0000
    requires forall j: u64 | j < |known| :: MapValue(fields, j) == Some(known[j].value)
    ensures fields == known + UnknownFields(fields, |known|)
    ensures var unknown := UnknownFields(fields, |known|);
      forall i | 0 <= i < |unknown| :: unknown[i].key >= |known|
  {
    var k := |known|;
    KnownComeFirst(fields, k);
    KnownMatch(fields, known);
    var rest := fields[k..];
    assert fields == known + rest;
    UnknownFieldsDrop(known, rest, k);
    UnknownFieldsAll(rest, k);
  }

  lemma KnownMatch(fields: seq<Entry>, known: seq<Entry>)
    requires Ascending(fields) && KnownKeys(known) && |known| < 0x1_0000_0000_0000_0000
    requires |known| <= |fields| && KnownKeys(fields[..|known|])
    requires forall j: u64 | j < |known| :: MapValue(fields, j) == Some(known[j].value)
    ensures fields[..|known|] == known
  {
    hide MapValue;
    forall i | 0 <= i < |known| ensures fields[i] == known[i] {
      assert fields[..|known|][i].key == i;
      MapValueFinds(fields, i);
    }
  }

  lemma FieldsJoin(known: seq<Entry>, unknown: seq<Entry>)
    requires KnownKeys(known) && |known| < 0x1_0000_0000_0000_0000
    requires Ascending(unknown) && forall i | 0 <= i < |unknown| :: unknown[i].key >= |known|
    ensures Ascending(known + unknown)
    ensures forall j: u64 | j < |known| :: MapValue(known + unknown, j) == Some(known[j].value)
    ensures UnknownFields(known + unknown, |known|) == unknown
  {
    var fields := known + unknown;
    forall j: u64 | j < |known| ensures MapValue(fields, j) == Some(known[j].value) {
      MapValueFinds(fields, j);
    }
    UnknownFieldsDrop(known, unknown, |known|);
    UnknownFieldsAll(unknown, |known|);
  }

  // A map of known fields and an extension is admissible exactly when its parts are.
  lemma FieldsAdmissible(known: seq<Entry>, unknown: seq<Entry>, limits: Limits, budget: nat)
    requires KnownKeys(known) && budget > 0
    requires forall i | 0 <= i < |unknown| :: unknown[i].key >= |known|
    ensures Admissible(Map(known + unknown), limits, budget) && UnknownAllowed(known + unknown, |known|) <==>
      && Extension(unknown, |known|, limits, budget - 1)
      && forall i | 0 <= i < |known| :: Admissible(known[i].value, limits, budget - 1)
  {
    var fields := known + unknown;
    assert forall i | 0 <= i < |known| :: fields[i] == known[i];
    assert forall i | 0 <= i < |unknown| :: fields[|known| + i] == unknown[i];
    assert forall i | |known| <= i < |fields| :: fields[i] == unknown[i - |known|];
  }

  // Reading a map: its known fields, then an extension.
  lemma MapRead(fields: seq<Entry>, known: seq<Entry>, limits: Limits, budget: nat)
    requires KnownKeys(known) && |known| < 0x1_0000_0000_0000_0000
    requires Admissible(Map(fields), limits, budget) && UnknownAllowed(fields, |known|)
    requires forall j: u64 | j < |known| :: MapValue(fields, j) == Some(known[j].value)
    ensures fields == known + UnknownFields(fields, |known|)
    ensures Extension(UnknownFields(fields, |known|), |known|, limits, budget - 1)
    ensures forall i | 0 <= i < |known| :: Admissible(known[i].value, limits, budget - 1)
  {
    FieldsSplit(fields, known);
    FieldsAdmissible(known, UnknownFields(fields, |known|), limits, budget);
  }

  // Building it again.
  lemma MapBuilt(known: seq<Entry>, unknown: seq<Entry>, limits: Limits, budget: nat)
    requires KnownKeys(known) && |known| < 0x1_0000_0000_0000_0000 && budget > 0
    requires Extension(unknown, |known|, limits, budget - 1)
    requires forall i | 0 <= i < |known| :: Admissible(known[i].value, limits, budget - 1)
    ensures Admissible(Map(known + unknown), limits, budget) && UnknownAllowed(known + unknown, |known|)
    ensures forall j: u64 | j < |known| :: MapValue(known + unknown, j) == Some(known[j].value)
    ensures UnknownFields(known + unknown, |known|) == unknown
  {
    FieldsJoin(known, unknown);
    FieldsAdmissible(known, unknown, limits, budget);
  }

  // ----- the envelope, level by level

  const STORE: Limits := WALLET_STORE_LIMITS
  const PAYLOAD: Limits := PROFILE_PAYLOAD_LIMITS

  ghost predicate KdfWellFormed(kdf: Kdf) {
    Extension(kdf.unknown, 6, STORE, 28)
  }

  lemma KdfRead(v: Value, kdf: Kdf)
    requires Admissible(v, STORE, 29) && ParseKdf(Some(v)) == Ok(kdf)
    ensures KdfWellFormed(kdf) && v == KdfToValue(kdf)
  {
    MapRead(v.entries, KdfKnown(kdf), STORE, 29);
  }

  lemma KdfBuilt(kdf: Kdf)
    requires KdfWellFormed(kdf)
    ensures Admissible(KdfToValue(kdf), STORE, 29) && ParseKdf(Some(KdfToValue(kdf))) == Ok(kdf)
  {
    MapBuilt(KdfKnown(kdf), kdf.unknown, STORE, 29);
  }

  ghost predicate CipherWellFormed(cipher: Cipher) {
    Extension(cipher.unknown, 4, STORE, 28) && |cipher.ciphertext| <= MAX_CIPHERTEXT
  }

  lemma CipherRead(v: Value, cipher: Cipher)
    requires Admissible(v, STORE, 29) && ParseCipher(Some(v)) == Ok(cipher)
    ensures CipherWellFormed(cipher) && v == CipherToValue(cipher)
  {
    MapRead(v.entries, CipherKnown(cipher), STORE, 29);
  }

  lemma CipherBuilt(cipher: Cipher)
    requires CipherWellFormed(cipher)
    ensures Admissible(CipherToValue(cipher), STORE, 29) && ParseCipher(Some(CipherToValue(cipher))) == Ok(cipher)
  {
    MapBuilt(CipherKnown(cipher), cipher.unknown, STORE, 29);
  }

  lemma IndexEntryRead(v: Value, entry: IndexEntry)
    requires Admissible(v, STORE, 28) && ParseIndexEntry(v) == Ok(entry)
    ensures v.Map? && v.entries == IndexKnown(entry) + UnknownFields(v.entries, 2)
    ensures Extension(UnknownFields(v.entries, 2), 2, STORE, 27)
  {
    MapRead(v.entries, IndexKnown(entry), STORE, 28);
  }

  lemma IndexEntryBuilt(entry: IndexEntry, unknown: seq<Entry>)
    requires Extension(unknown, 2, STORE, 27)
    ensures var v := Map(IndexKnown(entry) + unknown);
      Admissible(v, STORE, 28) && ParseIndexEntry(v) == Ok(entry) && UnknownFields(v.entries, 2) == unknown
  {
    MapBuilt(IndexKnown(entry), unknown, STORE, 28);
  }

  ghost predicate ProfileWellFormed(p: Profile) {
    && Extension(p.unknown, 7, STORE, 29)
    && KdfWellFormed(p.kdf)
    && CipherWellFormed(p.cipher)
    && Admissible(Array(p.aadIndex), STORE, 29)
    && ParseIndex(p.aadIndex) == Ok(p.index)
  }

  ghost predicate ProfileParts(fields: seq<Entry>, p: Profile) {
    && UnknownAllowed(fields, 7)
    && MapValue(fields, 0) == Some(Bytes(p.profileId))
    && MapValue(fields, 1) == Some(UInt(p.network.Wire()))
    && MapValue(fields, 2) == Some(Bytes(p.duplicateTag))
    && MapValue(fields, 3) == Some(UInt(PROFILE_SCHEMA_VERSION))
    && MapValue(fields, 4).Some?
    && MapValue(fields, 5).Some?
    && ParseKdf(MapValue(fields, 4)) == Ok(p.kdf)
    && ParseCipher(MapValue(fields, 5)) == Ok(p.cipher)
    && MapValue(fields, 6) == Some(Array(p.aadIndex))
    && |p.aadIndex| <= MAX_KEYS
    && ParseIndex(p.aadIndex) == Ok(p.index)
    && p.unknown == UnknownFields(fields, 7)
  }

  lemma ProfileFromParts(fields: seq<Entry>, p: Profile)
    ensures ParseProfile(Map(fields)) == Ok(p) <==> ProfileParts(fields, p)
  {
    hide MapValue, UnknownFields, UnknownAllowed, ParseIndex;
  }

  lemma ProfileRead(v: Value, p: Profile)
    requires Admissible(v, STORE, 30) && ParseProfile(v) == Ok(p)
    ensures ProfileWellFormed(p) && v == ProfileToValue(p)
  {
    hide Admissible, ParseKdf, ParseCipher, MapValue, KdfWellFormed, CipherWellFormed, Extension;
    var fields := v.entries;
    ProfileFromParts(fields, p);
    FieldAdmissible(fields, 4, STORE, 30);
    FieldAdmissible(fields, 5, STORE, 30);
    KdfRead(MapValue(fields, 4).value, p.kdf);
    CipherRead(MapValue(fields, 5).value, p.cipher);
    ProfileFieldsRead(fields, p);
  }

  lemma ProfileFieldsRead(fields: seq<Entry>, p: Profile)
    requires Admissible(Map(fields), STORE, 30) && ProfileParts(fields, p)
    requires MapValue(fields, 4) == Some(KdfToValue(p.kdf)) && MapValue(fields, 5) == Some(CipherToValue(p.cipher))
    ensures fields == ProfileKnown(p) + p.unknown
    ensures Extension(p.unknown, 7, STORE, 29) && Admissible(Array(p.aadIndex), STORE, 29)
  {
    hide Admissible, ParseKdf, ParseCipher, MapValue, Extension, KdfToValue, CipherToValue;
    MapRead(fields, ProfileKnown(p), STORE, 30);
    assert ProfileKnown(p)[6].value == Array(p.aadIndex);
  }

  lemma ProfileBuilt(p: Profile)
    requires ProfileWellFormed(p)
    ensures Admissible(ProfileToValue(p), STORE, 30) && ParseProfile(ProfileToValue(p)) == Ok(p)
  {
    hide MapValue, UnknownFields, UnknownAllowed, ParseKdf, ParseCipher, ParseIndex, KdfToValue, CipherToValue;
    ProfileKnownAdmissible(p);
    MapBuilt(ProfileKnown(p), p.unknown, STORE, 30);
    KdfBuilt(p.kdf);
    CipherBuilt(p.cipher);
    ProfileFromParts(ProfileKnown(p) + p.unknown, p);
  }

  lemma ProfileKnownAdmissible(p: Profile)
    requires ProfileWellFormed(p)
    ensures forall i | 0 <= i < |ProfileKnown(p)| :: Admissible(ProfileKnown(p)[i].value, STORE, 29)
    ensures KnownKeys(ProfileKnown(p))
  {
    KdfBuilt(p.kdf);
    CipherBuilt(p.cipher);
  }

  lemma LessWeak(a: seq<byte>, b: seq<byte>, c: seq<byte>)
    ensures !Less(b, a) && !Less(c, b) ==> !Less(c, a)
  {
    if !Less(b, a) && !Less(c, b) && Less(c, a) {
      LessTotal(a, b);
      LessTotal(b, c);
      if Less(a, b) {
        LessTransitive(c, a, b);
      }
    }
  }

  lemma LessOrder()
    ensures Order(ProfileLess) && Order(KeyIdLess)
  {
    forall a: seq<byte>, b: seq<byte> ensures Less(a, b) ==> !Less(b, a) {
      if Less(a, b) {
        LessAsymmetric(a, b);
      }
    }
    forall a: seq<byte>, b: seq<byte>, c: seq<byte> ensures !Less(b, a) && !Less(c, b) ==> !Less(c, a) {
      LessWeak(a, b, c);
    }
  }

  ghost predicate ProfilesWellFormed(profiles: seq<Profile>) {
    && StrictlySorted(ProfileLess, profiles)
    && forall i | 0 <= i < |profiles| :: ProfileWellFormed(profiles[i])
  }

  lemma {:induction false} ProfilesRead(values: seq<Value>, profiles: seq<Profile>)
    requires forall i | 0 <= i < |values| :: Admissible(values[i], STORE, 30)
    requires ParseProfiles(values) == Ok(profiles)
    ensures ProfilesWellFormed(profiles) && values == ProfileValues(profiles)
  {
    hide ParseProfile, ProfileToValue, ProfileWellFormed, Less, Admissible;
    if values != [] {
      LastProfileParsed(values, profiles);
      var front, last := profiles[..|profiles| - 1], profiles[|profiles| - 1];
      ProfilesRead(values[..|values| - 1], front);
      ProfileRead(values[|values| - 1], last);
      LastProfileRead(values, front, last);
    }
  }

  lemma LastProfileParsed(values: seq<Value>, profiles: seq<Profile>)
    requires values != [] && ParseProfiles(values) == Ok(profiles)
    ensures profiles != [] && ParseProfiles(values[..|values| - 1]) == Ok(profiles[..|profiles| - 1])
    ensures ParseProfile(values[|values| - 1]) == Ok(profiles[|profiles| - 1])
    ensures |profiles| > 1 ==> Less(profiles[|profiles| - 2].profileId, profiles[|profiles| - 1].profileId)
    ensures profiles == profiles[..|profiles| - 1] + [profiles[|profiles| - 1]]
  {
    hide ParseProfile, Less;
    var front := ParseProfiles(values[..|values| - 1]).value;
    var last := ParseProfile(values[|values| - 1]).value;
    assert profiles == front + [last];
    assert profiles[..|profiles| - 1] == front;
  }

  lemma LastProfileRead(values: seq<Value>, front: seq<Profile>, last: Profile)
    requires values != [] && ProfilesWellFormed(front) && ProfileWellFormed(last)
    requires values[..|values| - 1] == ProfileValues(front) && values[|values| - 1] == ProfileToValue(last)
    requires front == [] || Less(front[|front| - 1].profileId, last.profileId)
    ensures ProfilesWellFormed(front + [last]) && values == ProfileValues(front + [last])
  {
    hide ProfileToValue, ProfileWellFormed, Less, Order, ProfileValues, StrictlySorted;
    LessOrder();
    ExtendSorted(ProfileLess, front, last);
    AppendProfileValue(front, last);
    assert values == values[..|values| - 1] + [values[|values| - 1]];
  }

  lemma AppendProfileValue(front: seq<Profile>, last: Profile)
    ensures ProfileValues(front + [last]) == ProfileValues(front) + [ProfileToValue(last)]
  {
    assert (front + [last])[..|front|] == front;
  }

  lemma {:induction false} ProfilesBuilt(profiles: seq<Profile>)
    requires ProfilesWellFormed(profiles)
    ensures ParseProfiles(ProfileValues(profiles)) == Ok(profiles)
  {
    hide ParseProfile, ProfileToValue, ProfileWellFormed, Less, Admissible;
    if profiles != [] {
      var front, last := profiles[..|profiles| - 1], profiles[|profiles| - 1];
      ProfilesBuilt(front);
      ProfileBuilt(last);
      LastProfile(profiles);
      ProfileAppended(ProfileValues(profiles), front, last);
    }
  }

  lemma LastProfile(profiles: seq<Profile>)
    requires ProfilesWellFormed(profiles) && profiles != []
    ensures var front, last := profiles[..|profiles| - 1], profiles[|profiles| - 1];
      && ProfileValues(profiles)[..|profiles| - 1] == ProfileValues(front)
      && profiles == front + [last]
      && (front != [] ==> Less(front[|front| - 1].profileId, last.profileId))
  {
    hide ProfileToValue, ProfileWellFormed, Less;
    if |profiles| > 1 {
      assert ProfileLess(profiles[|profiles| - 2], profiles[|profiles| - 1]);
    }
  }

  lemma ProfileAppended(values: seq<Value>, front: seq<Profile>, x: Profile)
    requires values != [] && ParseProfiles(values[..|values| - 1]) == Ok(front)
    requires ParseProfile(values[|values| - 1]) == Ok(x)
    requires front == [] || Less(front[|front| - 1].profileId, x.profileId)
    ensures ParseProfiles(values) == Ok(front + [x])
  {
    hide ParseProfile, Less;
  }

  lemma ExtendSorted<T(!new)>(less: (T, T) -> bool, front: seq<T>, x: T)
    requires Order(less) && StrictlySorted(less, front)
    requires front == [] || less(front[|front| - 1], x)
    ensures StrictlySorted(less, front + [x])
  {
    var n := |front|;
    forall i | 0 <= i < n ensures less(front[i], x) {
      if i < n - 1 {
        assert less(front[i], front[n - 1]);
      }
    }
  }

  ghost predicate StoreWellFormed(s: Store) {
    && Extension(s.unknown, 4, STORE, 31)
    && |s.profiles| <= MAX_PROFILES
    && ProfilesWellFormed(s.profiles)
  }

  ghost predicate StoreParts(fields: seq<Entry>, values: seq<Value>, s: Store) {
    && UnknownAllowed(fields, 4)
    && MapValue(fields, 0) == Some(Bytes(MAGIC))
    && MapValue(fields, 1) == Some(UInt(STORE_VERSION))
    && MapValue(fields, 2) == Some(Bytes(s.registryKey))
    && MapValue(fields, 3) == Some(Array(values))
    && |values| <= MAX_PROFILES
    && ParseProfiles(values) == Ok(s.profiles)
    && s.unknown == UnknownFields(fields, 4)
  }

  lemma StoreFromParts(fields: seq<Entry>, values: seq<Value>, s: Store)
    requires MapValue(fields, 3) == Some(Array(values))
    ensures ParseStore(Map(fields)) == Ok(s) <==> StoreParts(fields, values, s)
  {
    hide MapValue, UnknownFields, UnknownAllowed, ParseProfiles;
  }

  lemma StoreHasProfiles(v: Value)
    requires ParseStore(v).Ok?
    ensures v.Map? && MapValue(v.entries, 3).Some? && MapValue(v.entries, 3).value.Array?
  {
    hide MapValue, UnknownFields, UnknownAllowed, ParseProfiles;
  }

  lemma StoreRead(v: Value, s: Store)
    requires Admissible(v, STORE, 32) && ParseStore(v) == Ok(s)
    ensures StoreWellFormed(s) && v == StoreToValue(s)
  {
    hide ParseProfiles, ProfileToValue, ProfilesWellFormed, Admissible, Extension, MapValue, ParseStore, UnknownFields,
      UnknownAllowed, Sort, ProfileValues;
    StoreHasProfiles(v);
    var fields := v.entries;
    var values := MapValue(fields, 3).value.items;
    StoreFromParts(fields, values, s);
    StoreProfilesRead(fields, values, s.profiles);
    MapRead(fields, StoreKnown(s), STORE, 32);
  }

  lemma StoreProfilesRead(fields: seq<Entry>, values: seq<Value>, profiles: seq<Profile>)
    requires Admissible(Map(fields), STORE, 32)
    requires MapValue(fields, 3) == Some(Array(values)) && ParseProfiles(values) == Ok(profiles)
    ensures ProfilesWellFormed(profiles) && |values| == |profiles|
    ensures values == ProfileValues(profiles) && Sort(ProfileLess, profiles) == profiles
  {
    hide Admissible, MapValue;
    FieldAdmissible(fields, 3, STORE, 32);
    ArrayAdmissible(values, STORE, 31);
    ProfilesRead(values, profiles);
    SortKeepsProfiles(profiles);
  }

  lemma SortKeepsProfiles(profiles: seq<Profile>)
    requires StrictlySorted(ProfileLess, profiles)
    ensures Sort(ProfileLess, profiles) == profiles
  {
    LessOrder();
    SortKeepsSorted(ProfileLess, profiles);
  }

  lemma StoreBuilt(s: Store)
    requires StoreWellFormed(s)
    ensures Admissible(StoreToValue(s), STORE, 32) && ParseStore(StoreToValue(s)) == Ok(s)
  {
    hide MapValue, UnknownFields, UnknownAllowed, ParseProfiles, ParseStore, ProfileWellFormed, ProfileToValue;
    StoreKnownAdmissible(s);
    MapBuilt(StoreKnown(s), s.unknown, STORE, 32);
    ProfilesBuilt(s.profiles);
    hide Canonical, Within;
    StoreFromParts(StoreKnown(s) + s.unknown, ProfileValues(s.profiles), s);
  }

  lemma StoreKnownAdmissible(s: Store)
    requires StoreWellFormed(s)
    ensures forall i | 0 <= i < |StoreKnown(s)| :: Admissible(StoreKnown(s)[i].value, STORE, 31)
    ensures KnownKeys(StoreKnown(s)) && StoreKnown(s)[3].value == Array(ProfileValues(s.profiles))
  {
    hide Canonical, Within, ProfileWellFormed, ProfileToValue, Less, Sort, ProfileValues;
    SortKeepsProfiles(s.profiles);
    ProfileValuesAdmissible(s.profiles);
    StoreKnownAre(s, Array(ProfileValues(s.profiles)));
  }

  lemma StoreKnownAre(s: Store, profiles: Value)
    requires profiles == Array(ProfileValues(Sort(ProfileLess, s.profiles))) && Admissible(profiles, STORE, 31)
    ensures forall i | 0 <= i < |StoreKnown(s)| :: Admissible(StoreKnown(s)[i].value, STORE, 31)
  {
    hide Canonical, Within, Sort, ProfileValues;
    BytesAdmissible(MAGIC, STORE, 31);
    BytesAdmissible(s.registryKey, STORE, 31);
    UIntAdmissible(STORE_VERSION, STORE, 31);
  }

  lemma BytesAdmissible(b: seq<byte>, limits: Limits, budget: nat)
    requires budget > 0 && |b| <= limits.maxString
    ensures Admissible(Bytes(b), limits, budget)
  {
  }

  lemma UIntAdmissible(n: u64, limits: Limits, budget: nat)
    requires budget > 0
    ensures Admissible(UInt(n), limits, budget)
  {
  }

  lemma ProfileValuesAdmissible(profiles: seq<Profile>)
    requires ProfilesWellFormed(profiles) && |profiles| <= MAX_PROFILES
    ensures Admissible(Array(ProfileValues(profiles)), STORE, 31)
  {
    hide Admissible, ProfileToValue, ProfileWellFormed, ParseProfile, ProfileValues;
    forall i | 0 <= i < |profiles| ensures Admissible(ProfileValues(profiles)[i], STORE, 30) {
      ProfileBuilt(profiles[i]);
    }
    ArrayAdmissible(ProfileValues(profiles), STORE, 31);
  }

  lemma StoreEncoding(s: Store)
    requires StoreWellFormed(s)
    ensures var bytes := Wire(StoreToValue(s));
      && (EncodeStore(s).Ok? <==> |bytes| <= MAX_STORE_BYTES)
      && (EncodeStore(s).Ok? ==> EncodeStore(s) == Ok(bytes))
      && (EncodeStore(s).Err? ==> EncodeStore(s) == Err(SerializationFailure))
  {
    hide Wire, Canonical, Within, ParseStore, StoreToValue, ProfilesWellFormed;
    StoreBuilt(s);
    CanonicalIsNormal(StoreToValue(s));
  }

  // A Store is read from bytes exactly when it is well formed and they are its encoding.
  lemma StoreCodec(bytes: seq<byte>, s: Store)
    ensures DecodeStore(bytes) == Ok(s) <==> StoreWellFormed(s) && EncodeStore(s) == Ok(bytes)
  {
    hide Wire, Canonical, Within, ParseStore, StoreToValue, ProfilesWellFormed, EncodeStore, Decode, Extension;
    if DecodeStore(bytes) == Ok(s) {
      var v := Decode(bytes, STORE).value;
      DecodeExactly(bytes, STORE, v);
      StoreRead(v, s);
      StoreEncoding(s);
    }
    if StoreWellFormed(s) && EncodeStore(s) == Ok(bytes) {
      StoreBuilt(s);
      StoreEncoding(s);
      DecodeExactly(bytes, STORE, StoreToValue(s));
    }
  }
}
