// The bytes of a Store and of a payload, field by field, and what may be in them.
module StoreLayout {
  import opened Wrappers
  import opened Bytes
  import opened Sorting
  import opened Utf8
  import opened Cbor
  import opened CborTheory
  import opened CborSpelling
  import opened WalletTypes
  import opened StoreFormat
  import opened StoreFormatTheory
  import opened PayloadTheory
  import opened StoreOps
  import opened IndexTheory

  // ----- fields in order

  lemma AddedField(fields: seq<Entry>, e: Entry)
    ensures SpellingOfEntries(fields + [e]) == SpellingOfEntries(fields) + SpellingOfEntry(e)
  {
    assert (fields + [e])[..|fields|] == fields;
  }

  lemma {:induction false} AddedFields(fields: seq<Entry>, more: seq<Entry>)
    ensures SpellingOfEntries(fields + more) == SpellingOfEntries(fields) + SpellingOfEntries(more)
  {
    hide SpellingOfEntry;
    if more == [] {
      assert fields + more == fields;
    } else {
      var front, last := more[..|more| - 1], more[|more| - 1];
      AddedFields(fields, front);
      AddedField(fields + front, last);
      AddedField(front, last);
      assert fields + more == fields + front + [last] && more == front + [last];
    }
  }

  // A map of known fields and extension fields after them.
  lemma MapSpelling(known: seq<Entry>, unknown: seq<Entry>)
    ensures Spelling(Map(known + unknown)) ==
      HeadBytes(5, |known| + |unknown|) + SpellingOfEntries(known) + SpellingOfEntries(unknown)
  {
    hide SpellingOfEntries, HeadBytes;
    AddedFields(known, unknown);
  }

  // A field with a small key.
  function Field(key: byte, value: seq<byte>): seq<byte> {
    [key] + value
  }

  lemma FieldSpelling(key: byte, v: Value)
    requires key < 24
    ensures SpellingOfEntry(Entry(key, v)) == Field(key, Spelling(v))
  {
  }

  function UIntBytes(n: nat): seq<byte> {
    HeadBytes(0, n)
  }

  function BytesBytes(b: seq<byte>): seq<byte> {
    HeadBytes(2, |b|) + b
  }

  lemma {:induction false} ListSpelling(known: seq<Entry>, k: nat)
    requires KnownKeys(known) && k < |known| <= 24
    ensures SpellingOfEntries(known[..k + 1]) == SpellingOfEntries(known[..k]) + Field(k, Spelling(known[k].value))
  {
    hide Field, Spelling;
    AddedField(known[..k], known[k]);
    assert known[..k + 1] == known[..k] + [known[k]];
    FieldSpelling(k, known[k].value);
    assert known[k] == Entry(k, known[k].value);
  }

  // ----- the envelope

  function NetworkByte(network: Network): byte {
    if network.Testnet? then 0 else 1
  }

  function ChainByte(chain: Chain): byte {
    if chain.Nem? then 0 else 1
  }

  // Argon2id, version 0x13, 65536 KiB, 3 iterations, 1 lane.
  function KdfBytes(kdf: Kdf): seq<byte> {
    HeadBytes(5, 6 + |kdf.unknown|)
    + [0, 0, 1, 0x13, 2, 0x1a, 0, 1, 0, 0, 3, 3, 4, 1, 5, 0x50] + kdf.salt
    + SpellingOfEntries(kdf.unknown)
  }

  function CipherBytes(cipher: Cipher): seq<byte> {
    HeadBytes(5, 4 + |cipher.unknown|)
    + [0, 0, 1, 0x4c] + cipher.nonce + [2] + BytesBytes(cipher.ciphertext) + [3, 0x50] + cipher.tag
    + SpellingOfEntries(cipher.unknown)
  }

  function ProfileBytes(p: Profile): seq<byte> {
    HeadBytes(5, 7 + |p.unknown|)
    + [0, 0x50] + p.profileId + [1, NetworkByte(p.network), 2, 0x58, 0x20] + p.duplicateTag + [3, 1]
    + [4] + KdfBytes(p.kdf) + [5] + CipherBytes(p.cipher)
    + [6] + HeadBytes(4, |p.aadIndex|) + SpellingOfItems(p.aadIndex)
    + SpellingOfEntries(p.unknown)
  }

  function ProfilesBytes(profiles: seq<Profile>): seq<byte> {
    if profiles == [] then [] else ProfilesBytes(profiles[..|profiles| - 1]) + ProfileBytes(profiles[|profiles| - 1])
  }

  function StoreBytes(s: Store): seq<byte> {
    HeadBytes(5, 4 + |s.unknown|)
    + [0, 0x44] + Ascii("SNWC") + [1, 1, 2, 0x58, 0x20] + s.registryKey
    + [3] + HeadBytes(4, |s.profiles|) + ProfilesBytes(s.profiles)
    + SpellingOfEntries(s.unknown)
  }

  lemma NoFields()
    ensures SpellingOfEntries([]) == []
  {
  }

  lemma KdfSpelled(kdf: Kdf)
    ensures Spelling(KdfToValue(kdf)) == KdfBytes(kdf)
  {
    hide SpellingOfEntries;
    MapSpelling(KdfKnown(kdf), kdf.unknown);
    KdfFields(kdf);
  }

  lemma KdfFields(kdf: Kdf)
    ensures SpellingOfEntries(KdfKnown(kdf)) ==
      [0, 0, 1, 0x13, 2, 0x1a, 0, 1, 0, 0, 3, 3, 4, 1, 5, 0x50] + kdf.salt
  {
    hide SpellingOfEntries;
    var known := KdfKnown(kdf);
    NoFields();
    ListSpelling(known, 0);
    ListSpelling(known, 1);
    ListSpelling(known, 2);
    ListSpelling(known, 3);
    ListSpelling(known, 4);
    ListSpelling(known, 5);
    assert known[..6] == known && known[..0] == [];
  }

  lemma CipherSpelled(cipher: Cipher)
    ensures Spelling(CipherToValue(cipher)) == CipherBytes(cipher)
  {
    hide SpellingOfEntries, HeadBytes;
    MapSpelling(CipherKnown(cipher), cipher.unknown);
    CipherFields(cipher);
  }

  lemma CipherFields(cipher: Cipher)
    ensures SpellingOfEntries(CipherKnown(cipher)) ==
      [0, 0, 1, 0x4c] + cipher.nonce + [2] + BytesBytes(cipher.ciphertext) + [3, 0x50] + cipher.tag
  {
    hide SpellingOfEntries, BytesBytes;
    var known := CipherKnown(cipher);
    NoFields();
    ListSpelling(known, 0);
    ListSpelling(known, 1);
    ListSpelling(known, 2);
    ListSpelling(known, 3);
    assert known[..4] == known && known[..0] == [];
    assert Spelling(Bytes(cipher.ciphertext)) == BytesBytes(cipher.ciphertext) by {
      BytesSpelled(cipher.ciphertext);
    }
  }

  lemma BytesSpelled(b: seq<byte>)
    ensures Spelling(Bytes(b)) == BytesBytes(b)
  {
  }

  lemma ProfileSpelled(p: Profile)
    ensures Spelling(ProfileToValue(p)) == ProfileBytes(p)
  {
    hide SpellingOfEntries, HeadBytes, SpellingOfItems, KdfBytes, CipherBytes, KdfToValue, CipherToValue;
    MapSpelling(ProfileKnown(p), p.unknown);
    ProfileFields(p);
  }

  lemma ProfileFields(p: Profile)
    ensures SpellingOfEntries(ProfileKnown(p)) ==
      [0, 0x50] + p.profileId + [1, NetworkByte(p.network), 2, 0x58, 0x20] + p.duplicateTag + [3, 1]
      + [4] + KdfBytes(p.kdf) + [5] + CipherBytes(p.cipher)
      + [6] + HeadBytes(4, |p.aadIndex|) + SpellingOfItems(p.aadIndex)
  {
    hide SpellingOfEntries, SpellingOfItems, KdfBytes, CipherBytes, KdfToValue, CipherToValue, HeadBytes, Spelling;
    var known := ProfileKnown(p);
    NoFields();
    KdfSpelled(p.kdf);
    CipherSpelled(p.cipher);
    ListSpelling(known, 0);
    ListSpelling(known, 1);
    ListSpelling(known, 2);
    ListSpelling(known, 3);
    ListSpelling(known, 4);
    ListSpelling(known, 5);
    ListSpelling(known, 6);
    assert known[..7] == known && known[..0] == [];
    ShortSpellings(p.profileId, p.duplicateTag, NetworkByte(p.network));
    ArraySpelling(p.aadIndex);
  }

  lemma ShortSpellings(b16: Bytes16, b32: Bytes32, n: byte)
    requires n < 24
    ensures Spelling(Bytes(b16)) == [0x50] + b16 && Spelling(Bytes(b32)) == [0x58, 0x20] + b32
    ensures Spelling(UInt(n)) == [n] && Spelling(UInt(1)) == [1]
  {
  }

  lemma {:induction false} ProfilesSpelled(profiles: seq<Profile>)
    ensures SpellingOfItems(ProfileValues(profiles)) == ProfilesBytes(profiles)
  {
    hide ProfileToValue, ProfileBytes, Spelling;
    if profiles != [] {
      var front, last := profiles[..|profiles| - 1], profiles[|profiles| - 1];
      ProfilesSpelled(front);
      ProfileSpelled(last);
      assert ProfileValues(profiles)[..|profiles| - 1] == ProfileValues(front);
    }
  }

  lemma StoreSpelled(s: Store)
    requires Sort(ProfileLess, s.profiles) == s.profiles
    ensures Spelling(StoreToValue(s)) == StoreBytes(s)
  {
    hide SpellingOfEntries, HeadBytes, ProfilesBytes, ProfileValues, Sort, Ascii;
    MapSpelling(StoreKnown(s), s.unknown);
    StoreFields(s);
  }

  lemma MagicText()
    ensures MAGIC == Ascii("SNWC")
  {
  }

  lemma StoreFields(s: Store)
    requires Sort(ProfileLess, s.profiles) == s.profiles
    ensures SpellingOfEntries(StoreKnown(s)) ==
      [0, 0x44] + Ascii("SNWC") + [1, 1, 2, 0x58, 0x20] + s.registryKey
      + [3] + HeadBytes(4, |s.profiles|) + ProfilesBytes(s.profiles)
  {
    hide SpellingOfEntries, HeadBytes, ProfilesBytes, ProfileValues, Sort, Ascii, Spelling, SpellingOfItems;
    var known := StoreKnown(s);
    NoFields();
    MagicText();
    ListSpelling(known, 0);
    ListSpelling(known, 1);
    ListSpelling(known, 2);
    ListSpelling(known, 3);
    assert known[..4] == known && known[..0] == [];
    MagicSpelling(MAGIC);
    ShortSpellings(seq(16, i => 0), s.registryKey, 1);
    ArraySpelling(ProfileValues(s.profiles));
    ProfilesSpelled(s.profiles);
  }

  lemma MagicSpelling(b: Bytes4)
    ensures Spelling(Bytes(b)) == [0x44] + b
  {
  }

  // ----- the payload

  function OriginBytes(key: KeyRecord): seq<byte> {
    match key.origin
    case Derived(accountIndex) =>
      HeadBytes(5, 2 + |key.originUnknown|) + [0, 0, 1] + UIntBytes(accountIndex) + SpellingOfEntries(key.originUnknown)
    case Imported => HeadBytes(5, 1 + |key.originUnknown|) + [0, 1] + SpellingOfEntries(key.originUnknown)
    case Generated => HeadBytes(5, 1 + |key.originUnknown|) + [0, 2] + SpellingOfEntries(key.originUnknown)
  }

  function KeyBytes(key: KeyRecord): seq<byte> {
    HeadBytes(5, 4 + |key.unknown|)
    + [0, 0x50] + key.keyId + [1, ChainByte(key.chain), 2, 0x58, 0x20] + key.privateKey + [3] + OriginBytes(key)
    + SpellingOfEntries(key.unknown)
  }

  function KeysBytes(keys: seq<KeyRecord>): seq<byte> {
    if keys == [] then [] else KeysBytes(keys[..|keys| - 1]) + KeyBytes(keys[|keys| - 1])
  }

  function PayloadBytes(p: Payload): seq<byte> {
    HeadBytes(5, 2 + |p.unknown|)
    + [0, 0x58, 0x20] + p.entropy + [1] + HeadBytes(4, |p.keys|) + KeysBytes(p.keys)
    + SpellingOfEntries(p.unknown)
  }

  lemma OriginSpelled(key: KeyRecord)
    ensures Spelling(Map(OriginKnown(key.origin) + key.originUnknown)) == OriginBytes(key)
  {
    hide SpellingOfEntries, Spelling, HeadBytes;
    var known := OriginKnown(key.origin);
    MapSpelling(known, key.originUnknown);
    NoFields();
    ListSpelling(known, 0);
    assert known[..0] == [] && known[..|known|] == known;
    SmallUInts();
    if key.origin.Derived? {
      ListSpelling(known, 1);
      UIntSpelled(key.origin.accountIndex);
    }
  }

  lemma UIntSpelled(n: u64)
    ensures Spelling(UInt(n)) == UIntBytes(n)
  {
  }

  lemma SmallUInts()
    ensures Spelling(UInt(0)) == [0] && Spelling(UInt(1)) == [1] && Spelling(UInt(2)) == [2]
  {
  }

  lemma KeySpelled(key: KeyRecord)
    ensures Spelling(KeyToValue(key)) == KeyBytes(key)
  {
    hide SpellingOfEntries, Spelling, HeadBytes, OriginBytes, OriginKnown;
    var known := KeyKnown(key);
    MapSpelling(known, key.unknown);
    NoFields();
    ListSpelling(known, 0);
    ListSpelling(known, 1);
    ListSpelling(known, 2);
    ListSpelling(known, 3);
    assert known[..4] == known && known[..0] == [];
    ShortSpellings(key.keyId, key.privateKey, ChainByte(key.chain));
    OriginSpelled(key);
  }

  lemma {:induction false} KeysSpelled(keys: seq<KeyRecord>)
    ensures SpellingOfItems(KeyValues(keys)) == KeysBytes(keys)
  {
    hide KeyToValue, KeyBytes, Spelling;
    if keys != [] {
      var front, last := keys[..|keys| - 1], keys[|keys| - 1];
      KeysSpelled(front);
      KeySpelled(last);
      assert KeyValues(keys)[..|keys| - 1] == KeyValues(front);
    }
  }

  lemma PayloadSpelled(p: Payload)
    requires Sort(KeyIdLess, p.keys) == p.keys
    ensures Spelling(PayloadToValue(p)) == PayloadBytes(p)
  {
    hide SpellingOfEntries, HeadBytes, KeysBytes, KeyValues, Sort, Spelling, SpellingOfItems;
    var known := PayloadKnown(p);
    MapSpelling(known, p.unknown);
    NoFields();
    ListSpelling(known, 0);
    ListSpelling(known, 1);
    assert known[..2] == known && known[..0] == [];
    ShortSpellings(seq(16, i => 0), p.entropy, 1);
    ArraySpelling(KeyValues(p.keys));
    KeysSpelled(p.keys);
  }

  // ----- what may be in them

  // `x` is `v` or somewhere inside it.
  ghost predicate Contains(v: Value, x: Value) {
    x == v ||
    match v
    case Array(items) => exists i | 0 <= i < |items| :: Contains(items[i], x)
    case Map(entries) => exists i | 0 <= i < |entries| :: Contains(entries[i].value, x)
    case Tag(_, inner) => Contains(inner, x)
    case _ => false
  }

  ghost predicate OnlyPlain(v: Value) {
    forall x | Contains(v, x) :: x.UInt? || x.Bytes? || x.Text? || x.Array? || x.Map?
  }

  lemma {:induction false} PlainExactly(v: Value)
    ensures AllowedUnknown(v) <==> OnlyPlain(v)
  {
    assert Contains(v, v);
    match v
    case Array(items) =>
      forall i | 0 <= i < |items| ensures AllowedUnknown(items[i]) <==> OnlyPlain(items[i]) {
        PlainExactly(items[i]);
      }
      ArrayPlain(items);
    case Map(entries) =>
      forall i | 0 <= i < |entries| ensures AllowedUnknown(entries[i].value) <==> OnlyPlain(entries[i].value) {
        PlainExactly(entries[i].value);
      }
      MapPlain(entries);
    case _ =>
  }

  lemma ArrayPlain(items: seq<Value>)
    ensures OnlyPlain(Array(items)) <==> forall i | 0 <= i < |items| :: OnlyPlain(items[i])
  {
    forall i, x | 0 <= i < |items| && Contains(items[i], x) ensures Contains(Array(items), x) {
    }
    forall x | Contains(Array(items), x) && x != Array(items)
      ensures exists i | 0 <= i < |items| :: Contains(items[i], x)
    {
    }
  }

  lemma MapPlain(entries: seq<Entry>)
    ensures OnlyPlain(Map(entries)) <==> forall i | 0 <= i < |entries| :: OnlyPlain(entries[i].value)
  {
    forall i, x | 0 <= i < |entries| && Contains(entries[i].value, x) ensures Contains(Map(entries), x) {
    }
    forall x | Contains(Map(entries), x) && x != Map(entries)
      ensures exists i | 0 <= i < |entries| :: Contains(entries[i].value, x)
    {
    }
  }

  // Extension fields: ascending keys beyond the known ones, at most 256 fields with these, plain
  // and readable values.
  ghost predicate Extends(unknown: seq<Entry>, known: nat, depth: nat) {
    && known + |unknown| <= 256
    && (forall i | 0 < i < |unknown| :: unknown[i - 1].key < unknown[i].key)
    && forall i | 0 <= i < |unknown| ::
      unknown[i].key >= known && OnlyPlain(unknown[i].value) && Readable(unknown[i].value, depth)
  }

  lemma ReadableIn(v: Value, depth: nat)
    ensures Admissible(v, STORE, depth) <==> Readable(v, depth)
    ensures Admissible(v, PAYLOAD, depth) <==> Readable(v, depth)
  {
    hide Readable, Canonical, Within;
    ReadableExactly(v, depth);
    SameWithin(v, STORE, PAYLOAD, depth);
  }

  lemma ExtensionExactly(unknown: seq<Entry>, known: nat, depth: nat)
    ensures Extension(unknown, known, STORE, depth) <==> Extends(unknown, known, depth)
    ensures Extension(unknown, known, PAYLOAD, depth) <==> Extends(unknown, known, depth)
  {
    hide Admissible, Readable, OnlyPlain, AllowedUnknown;
    AscendingMeans(unknown);
    forall i | 0 <= i < |unknown|
      ensures AllowedUnknown(unknown[i].value) <==> OnlyPlain(unknown[i].value)
      ensures Admissible(unknown[i].value, STORE, depth) <==> Readable(unknown[i].value, depth)
      ensures Admissible(unknown[i].value, PAYLOAD, depth) <==> Readable(unknown[i].value, depth)
    {
      PlainExactly(unknown[i].value);
      ReadableIn(unknown[i].value, depth);
    }
  }

  // An index value that lists a key.
  ghost predicate Lists(v: Value, entry: IndexEntry) {
    v.Map? && exists unknown ::
      && v.entries == [Entry(0, Bytes(entry.keyId)), Entry(1, UInt(ChainByte(entry.chain)))] + unknown
      && Extends(unknown, 2, 27)
  }

  lemma ListsExactly(v: Value, entry: IndexEntry)
    ensures Lists(v, entry) <==> Admissible(v, STORE, 28) && ParseIndexEntry(v) == Ok(entry)
  {
    hide Admissible, ParseIndexEntry, Extends, Extension;
    if Admissible(v, STORE, 28) && ParseIndexEntry(v) == Ok(entry) {
      IndexEntryRead(v, entry);
      ExtensionExactly(UnknownFields(v.entries, 2), 2, 27);
    }
    if Lists(v, entry) {
      var unknown :| v.entries == [Entry(0, Bytes(entry.keyId)), Entry(1, UInt(ChainByte(entry.chain)))] + unknown
        && Extends(unknown, 2, 27);
      ExtensionExactly(unknown, 2, 27);
      IndexEntryBuilt(entry, unknown);
      assert v == Map(IndexKnown(entry) + unknown);
    }
  }

  ghost predicate ListsAll(values: seq<Value>, index: seq<IndexEntry>) {
    && |values| == |index| <= 256
    && (forall i | 0 <= i < |index| :: Lists(values[i], index[i]))
    && forall i, j | 0 <= i < j < |index| :: FromBigEndian(index[i].keyId) < FromBigEndian(index[j].keyId)
  }

  lemma IndexExactly(values: seq<Value>, index: seq<IndexEntry>)
    ensures ListsAll(values, index) <==> Admissible(Array(values), STORE, 29) && ParseIndex(values) == Ok(index)
  {
    hide Lists, Admissible, ParseIndexEntry, ParseIndex, Less, FromBigEndian;
    ArrayAdmissible(values, STORE, 29);
    forall i, j | 0 <= i < j < |index| ensures
      IndexLess(index[i], index[j]) <==> FromBigEndian(index[i].keyId) < FromBigEndian(index[j].keyId)
    {
      LessIsNumeric(index[i].keyId, index[j].keyId);
    }
    if Admissible(Array(values), STORE, 29) && ParseIndex(values) == Ok(index) {
      IndexParsed(values, index);
      forall i | 0 <= i < |index| ensures Lists(values[i], index[i]) {
        ListsExactly(values[i], index[i]);
      }
    }
    if ListsAll(values, index) {
      forall i | 0 <= i < |index| ensures Admissible(values[i], STORE, 28) && ParseIndexEntry(values[i]) == Ok(index[i]) {
        ListsExactly(values[i], index[i]);
      }
      IndexBuilt(values, index);
    }
  }

  ghost predicate ProfileGood(p: Profile) {
    && Extends(p.unknown, 7, 29) && Extends(p.kdf.unknown, 6, 28) && Extends(p.cipher.unknown, 4, 28)
    && |p.cipher.ciphertext| <= 1048576
    && ListsAll(p.aadIndex, p.index)
  }

  lemma ProfileGoodExactly(p: Profile)
    ensures ProfileGood(p) <==> ProfileWellFormed(p)
  {
    hide Extends, Extension, ListsAll, Admissible, ParseIndex;
    ExtensionExactly(p.unknown, 7, 29);
    ExtensionExactly(p.kdf.unknown, 6, 28);
    ExtensionExactly(p.cipher.unknown, 4, 28);
    IndexExactly(p.aadIndex, p.index);
  }

  ghost predicate StoreGood(s: Store) {
    && Extends(s.unknown, 4, 31)
    && |s.profiles| <= 128
    && (forall i | 0 <= i < |s.profiles| :: ProfileGood(s.profiles[i]))
    && forall i, j | 0 <= i < j < |s.profiles| ::
      FromBigEndian(s.profiles[i].profileId) < FromBigEndian(s.profiles[j].profileId)
  }

  lemma StoreGoodExactly(s: Store)
    ensures StoreGood(s) <==> StoreWellFormed(s)
  {
    hide Extends, Extension, ProfileGood, ProfileWellFormed, Less, FromBigEndian;
    ExtensionExactly(s.unknown, 4, 31);
    forall i | 0 <= i < |s.profiles| ensures ProfileGood(s.profiles[i]) <==> ProfileWellFormed(s.profiles[i]) {
      ProfileGoodExactly(s.profiles[i]);
    }
    forall i, j | 0 <= i < j < |s.profiles| ensures ProfileLess(s.profiles[i], s.profiles[j]) <==>
      FromBigEndian(s.profiles[i].profileId) < FromBigEndian(s.profiles[j].profileId)
    {
      LessIsNumeric(s.profiles[i].profileId, s.profiles[j].profileId);
    }
  }

  // A Store is read from bytes exactly when they are laid out so, in at most 16 MiB.
  lemma StoreInLayout(bytes: seq<byte>, s: Store)
    ensures DecodeStore(bytes) == Ok(s) <==> StoreGood(s) && |bytes| <= 16777216 && bytes == StoreBytes(s)
  {
    hide StoreGood, StoreBytes, StoreToValue, Wire, Spelling, DecodeStore, StoreWellFormed, EncodeStore, Admissible;
    StoreGoodExactly(s);
    StoreCodec(bytes, s);
    if StoreWellFormed(s) {
      StoreEncoding(s);
      StoreBuilt(s);
      StoreInOrder(s);
      StoreSpelled(s);
      AdmissibleSpelled(StoreToValue(s), STORE);
    }
  }

  lemma StoreInOrder(s: Store)
    requires StoreWellFormed(s)
    ensures Sort(ProfileLess, s.profiles) == s.profiles
  {
    hide ProfileWellFormed, Extension;
    SortKeepsProfiles(s.profiles);
  }

  lemma AdmissibleSpelled(v: Value, limits: Limits)
    requires Admissible(v, limits, 32)
    ensures Wire(v) == Spelling(v)
  {
    SpelledWithin(v, limits);
  }

  ghost predicate KeyGood(key: KeyRecord) {
    Extends(key.unknown, 4, 29) && Extends(key.originUnknown, if key.origin.Derived? then 2 else 1, 28)
  }

  ghost predicate PayloadGood(p: Payload) {
    && Extends(p.unknown, 2, 31)
    && |p.keys| <= 256
    && (forall i | 0 <= i < |p.keys| :: KeyGood(p.keys[i]))
    && forall i, j | 0 <= i < j < |p.keys| :: FromBigEndian(p.keys[i].keyId) < FromBigEndian(p.keys[j].keyId)
  }

  lemma PayloadGoodExactly(p: Payload)
    ensures PayloadGood(p) <==> PayloadWellFormed(p)
  {
    hide Extends, Extension, Less, FromBigEndian;
    ExtensionExactly(p.unknown, 2, 31);
    forall i | 0 <= i < |p.keys| ensures KeyGood(p.keys[i]) <==> KeyWellFormed(p.keys[i]) {
      ExtensionExactly(p.keys[i].unknown, 4, 29);
      ExtensionExactly(p.keys[i].originUnknown, OriginFields(p.keys[i].origin), 28);
    }
    forall i, j | 0 <= i < j < |p.keys| ensures KeyIdLess(p.keys[i], p.keys[j]) <==>
      FromBigEndian(p.keys[i].keyId) < FromBigEndian(p.keys[j].keyId)
    {
      LessIsNumeric(p.keys[i].keyId, p.keys[j].keyId);
    }
  }

  // And a payload, in at most 1 MiB.
  lemma PayloadInLayout(bytes: seq<byte>, p: Payload)
    ensures ParsePayload(bytes) == Ok(p) <==> PayloadGood(p) && |bytes| <= 1048576 && bytes == PayloadBytes(p)
  {
    hide PayloadGood, PayloadBytes, PayloadToValue, Wire, Spelling, ParsePayload, PayloadWellFormed, EncodePayload,
      Admissible;
    PayloadGoodExactly(p);
    PayloadCodec(bytes, p);
    if PayloadWellFormed(p) {
      PayloadEncoding(p);
      PayloadBuilt(p);
      PayloadInOrder(p);
      PayloadSpelled(p);
      AdmissibleSpelled(PayloadToValue(p), PAYLOAD);
    }
  }

  lemma PayloadInOrder(p: Payload)
    requires PayloadWellFormed(p)
    ensures Sort(KeyIdLess, p.keys) == p.keys
  {
    hide KeyWellFormed, Extension;
    SortKeepsKeys(p.keys);
  }

  // ----- the authenticated bytes

  function AadBytes(registryKey: Bytes32, p: Profile): seq<byte> {
    [0x8a, 0x44] + Ascii("SNWC") + [1, 0x58, 0x20] + registryKey + [0x50] + p.profileId + [NetworkByte(p.network)]
    + [0x58, 0x20] + p.duplicateTag + [1, 0, 0] + HeadBytes(4, |p.aadIndex|) + SpellingOfItems(p.aadIndex)
  }

  lemma AddedItem(items: seq<Value>, k: nat)
    requires k < |items|
    ensures SpellingOfItems(items[..k + 1]) == SpellingOfItems(items[..k]) + Spelling(items[k])
  {
    assert items[..k + 1][..k] == items[..k];
  }

  lemma AadFront(registryKey: Bytes32, p: Profile)
    ensures SpellingOfItems(AadValue(registryKey, p).items[..5]) ==
      [0x44] + Ascii("SNWC") + [1, 0x58, 0x20] + registryKey + [0x50] + p.profileId + [NetworkByte(p.network)]
  {
    hide SpellingOfItems, Spelling, Ascii;
    var items := AadValue(registryKey, p).items;
    MagicText();
    MagicSpelling(MAGIC);
    ShortSpellings(p.profileId, registryKey, NetworkByte(p.network));
    AddedItem(items, 0);
    AddedItem(items, 1);
    AddedItem(items, 2);
    AddedItem(items, 3);
    AddedItem(items, 4);
    NoItemsSpelled();
    assert items[..0] == [];
  }

  lemma AadSpelled(registryKey: Bytes32, p: Profile)
    ensures Spelling(AadValue(registryKey, p)) == AadBytes(registryKey, p)
  {
    hide SpellingOfItems, Spelling, Ascii, HeadBytes;
    var items := AadValue(registryKey, p).items;
    ArraySpelling(items);
    TenHead();
    AadFront(registryKey, p);
    ShortSpellings(p.profileId, p.duplicateTag, 0);
    ArraySpelling(p.aadIndex);
    AddedItem(items, 5);
    AddedItem(items, 6);
    AddedItem(items, 7);
    AddedItem(items, 8);
    AddedItem(items, 9);
    assert items[..10] == items;
  }

  lemma TenHead()
    ensures HeadBytes(4, 10) == [0x8a]
  {
  }

  lemma NoItemsSpelled()
    ensures SpellingOfItems([]) == []
  {
  }
}
