// How long the wire form of a value is.
module WireSizes {
  import opened Bytes
  import opened Sorting
  import opened Cbor
  import opened WalletTypes
  import opened StoreFormat

  function Sum(sizes: seq<nat>): nat {
    if sizes == [] then 0 else sizes[0] + Sum(sizes[1..])
  }

  lemma Sum2(a: nat, b: nat)
    ensures Sum([a, b]) == a + b
  {
    assert [a, b][1..] == [b] && [b][1..] == [];
    assert Sum([b]) == b + Sum([]);
  }

  lemma Sum4(a: nat, b: nat, c: nat, d: nat)
    ensures Sum([a, b, c, d]) == a + b + c + d
  {
    assert [a, b, c, d][1..] == [b, c, d] && [b, c, d][1..] == [c, d];
    Sum2(c, d);
  }

  lemma Sum7(a: nat, b: nat, c: nat, d: nat, e: nat, f: nat, g: nat)
    ensures Sum([a, b, c, d, e, f, g]) == a + b + c + d + e + f + g
  {
    assert [a, b, c, d, e, f, g][1..] == [b, c, d, e, f, g] && [b, c, d, e, f, g][1..] == [c, d, e, f, g];
    assert [c, d, e, f, g][1..] == [d, e, f, g];
    Sum4(d, e, f, g);
    assert Sum([c, d, e, f, g]) == c + Sum([d, e, f, g]);
    assert Sum([b, c, d, e, f, g]) == b + Sum([c, d, e, f, g]);
  }

  lemma HeadSize(major: nat, n: u64)
    requires major < 8
    ensures |Head(major, n)| ==
      if n <= 23 then 1 else if n <= 0xff then 2 else if n <= 0xffff then 3 else if n <= 0xffff_ffff then 5 else 9
  {
  }

  lemma BytesSize(b: seq<byte>)
    requires |b| <= 0xffff_ffff
    ensures |Wire(Bytes(b))| ==
      |b| + (if |b| <= 23 then 1 else if |b| <= 0xff then 2 else if |b| <= 0xffff then 3 else 5)
  {
    HeadSize(2, |b|);
  }

  lemma {:induction false} EntriesSize(entries: seq<Entry>, sizes: seq<nat>)
    requires |entries| == |sizes|
    requires forall i | 0 <= i < |entries| :: |WireEntry(entries[i])| <= sizes[i]
    ensures |WireEntries(entries)| <= Sum(sizes)
  {
    hide WireEntry;
    if entries != [] {
      EntriesSize(entries[1..], sizes[1..]);
    }
  }

  lemma {:induction false} ItemsSize(items: seq<Value>, size: nat)
    requires forall i | 0 <= i < |items| :: |Wire(items[i])| <= size
    ensures |WireItems(items)| <= size * |items|
  {
    hide Wire;
    if items != [] {
      ItemsSize(items[1..], size);
      assert size * |items| == size + size * |items[1..]|;
    }
  }

  lemma MapSize(entries: seq<Entry>, sizes: seq<nat>)
    requires |entries| == |sizes| <= 23
    requires forall i | 0 <= i < |entries| :: |WireEntry(entries[i])| <= sizes[i]
    ensures |Wire(Map(entries))| <= 1 + Sum(sizes)
  {
    hide WireEntry;
    HeadSize(5, |entries|);
    EntriesSize(entries, sizes);
  }

  lemma ArraySize(items: seq<Value>, size: nat)
    requires |items| <= 0xffff
    requires forall i | 0 <= i < |items| :: |Wire(items[i])| <= size
    ensures |Wire(Array(items))| <= 3 + size * |items|
  {
    HeadSize(4, |items|);
    ItemsSize(items, size);
  }

  lemma EntrySize(key: u64, value: Value, size: nat)
    requires key <= 23 && |Wire(value)| <= size
    ensures |WireEntry(Entry(key, value))| <= 1 + size
  {
    HeadSize(0, key);
  }

  // ----- entities without extension fields

  predicate PlainKey(key: KeyRecord) {
    key.unknown == [] && key.originUnknown == []
  }

  predicate PlainPayload(payload: Payload) {
    payload.unknown == [] && forall i | 0 <= i < |payload.keys| :: PlainKey(payload.keys[i])
  }

  predicate PlainProfile(p: Profile) {
    p.unknown == [] && p.kdf.unknown == [] && p.cipher.unknown == [] && p.aadIndex == IndexToValues(p.index)
  }

  lemma OriginSize(origin: Origin)
    ensures |Wire(Map(OriginKnown(origin)))| <= 9
  {
    match origin
    case Derived(accountIndex) =>
      HeadSize(0, accountIndex);
      EntrySize(0, UInt(0), 1);
      EntrySize(1, UInt(accountIndex), 5);
      MapSize(OriginKnown(origin), [2, 6]);
    case Imported =>
      EntrySize(0, UInt(1), 1);
      MapSize(OriginKnown(origin), [2]);
    case Generated =>
      EntrySize(0, UInt(2), 1);
      MapSize(OriginKnown(origin), [2]);
  }

  // A key takes at most 66 bytes.
  lemma KeySize(key: KeyRecord)
    requires PlainKey(key)
    ensures |Wire(KeyToValue(key))| <= 66
  {
    hide Wire, WireEntry, OriginKnown;
    BytesSize(key.keyId);
    BytesSize(key.privateKey);
    SmallUInt(key.chain.Wire());
    OriginSize(key.origin);
    var origin := Map(OriginKnown(key.origin) + key.originUnknown);
    assert OriginKnown(key.origin) + [] == OriginKnown(key.origin);
    EntrySize(0, Bytes(key.keyId), 17);
    EntrySize(1, UInt(key.chain.Wire()), 1);
    EntrySize(2, Bytes(key.privateKey), 34);
    EntrySize(3, origin, 9);
    assert KeyKnown(key) + [] == KeyKnown(key);
    MapSize(KeyKnown(key), [18, 2, 35, 10]);
  }

  lemma SmallUInt(n: u64)
    requires n <= 23
    ensures |Wire(UInt(n))| == 1
  {
  }

  // A payload takes at most 40 bytes and 66 for each key: 16,936 with all 256.
  lemma PayloadSize(payload: Payload)
    requires PlainPayload(payload) && |payload.keys| <= MAX_KEYS
    ensures |Wire(PayloadToValue(payload))| <= 40 + 66 * |payload.keys|
  {
    hide Wire, WireEntry, KeyToValue, KeyValues, Sort, PlainKey;
    var keys := Sort(KeyIdLess, payload.keys);
    SortPermutes(KeyIdLess, payload.keys);
    AllUnderPermutation(PlainKey, payload.keys, keys);
    var values := KeyValues(keys);
    forall i | 0 <= i < |values| ensures |Wire(values[i])| <= 66 {
      KeySize(keys[i]);
    }
    ArraySize(values, 66);
    BytesSize(payload.entropy);
    EntrySize(0, Bytes(payload.entropy), 34);
    EntrySize(1, Array(values), 3 + 66 * |keys|);
    assert PayloadKnown(payload) + [] == PayloadKnown(payload);
    Sum2(35, 4 + 66 * |keys|);
    MapSize(PayloadKnown(payload), [35, 4 + 66 * |keys|]);
  }

  lemma KdfSize(kdf: Kdf)
    requires kdf.unknown == []
    ensures |Wire(KdfToValue(kdf))| <= 33
  {
    hide Wire, WireEntry;
    BytesSize(kdf.salt);
    UIntSize(KDF_MEMORY_KIB);
    SmallUInt(KDF_ALGORITHM);
    SmallUInt(KDF_VERSION);
    SmallUInt(KDF_ITERATIONS);
    SmallUInt(KDF_PARALLELISM);
    EntrySize(0, UInt(KDF_ALGORITHM), 1);
    EntrySize(1, UInt(KDF_VERSION), 1);
    EntrySize(2, UInt(KDF_MEMORY_KIB), 5);
    EntrySize(3, UInt(KDF_ITERATIONS), 1);
    EntrySize(4, UInt(KDF_PARALLELISM), 1);
    EntrySize(5, Bytes(kdf.salt), 17);
    assert KdfKnown(kdf) + [] == KdfKnown(kdf);
    MapSize(KdfKnown(kdf), [2, 2, 6, 2, 2, 18]);
  }

  lemma UIntSize(n: u64)
    requires n <= 0xffff_ffff
    ensures |Wire(UInt(n))| <= 5
  {
    HeadSize(0, n);
  }

  lemma CipherSize(cipher: Cipher)
    requires cipher.unknown == [] && |cipher.ciphertext| <= 0xffff_ffff
    ensures |Wire(CipherToValue(cipher))| <= 41 + |cipher.ciphertext|
  {
    hide Wire, WireEntry;
    var n := |cipher.ciphertext|;
    SmallUInt(CIPHER_ALGORITHM);
    BytesSize(cipher.nonce);
    BytesSize(cipher.ciphertext);
    BytesSize(cipher.tag);
    EntrySize(0, UInt(CIPHER_ALGORITHM), 1);
    EntrySize(1, Bytes(cipher.nonce), 13);
    EntrySize(2, Bytes(cipher.ciphertext), 5 + n);
    EntrySize(3, Bytes(cipher.tag), 17);
    assert CipherKnown(cipher) + [] == CipherKnown(cipher);
    Sum4(2, 14, 6 + n, 18);
    MapSize(CipherKnown(cipher), [2, 14, 6 + n, 18]);
  }

  lemma IndexSize(entry: IndexEntry)
    ensures |Wire(IndexToValue(entry))| <= 21
  {
    hide Wire, WireEntry;
    BytesSize(entry.keyId);
    SmallUInt(entry.chain.Wire());
    EntrySize(0, Bytes(entry.keyId), 17);
    EntrySize(1, UInt(entry.chain.Wire()), 1);
    MapSize(IndexKnown(entry), [18, 2]);
  }

  lemma ProfileSize(p: Profile)
    requires PlainProfile(p) && |p.cipher.ciphertext| <= 0xffff_ffff && |p.index| <= MAX_KEYS
    ensures |Wire(ProfileToValue(p))| <= 138 + |p.cipher.ciphertext| + 21 * |p.index|
  {
    hide Wire, WireEntry, KdfToValue, CipherToValue, IndexToValue, IndexToValues;
    var n, k := |p.cipher.ciphertext|, |p.index|;
    forall i | 0 <= i < k ensures |Wire(p.aadIndex[i])| <= 21 {
      IndexSize(p.index[i]);
    }
    ArraySize(p.aadIndex, 21);
    BytesSize(p.profileId);
    BytesSize(p.duplicateTag);
    SmallUInt(p.network.Wire());
    SmallUInt(PROFILE_SCHEMA_VERSION);
    KdfSize(p.kdf);
    CipherSize(p.cipher);
    EntrySize(0, Bytes(p.profileId), 17);
    EntrySize(1, UInt(p.network.Wire()), 1);
    EntrySize(2, Bytes(p.duplicateTag), 34);
    EntrySize(3, UInt(PROFILE_SCHEMA_VERSION), 1);
    EntrySize(4, KdfToValue(p.kdf), 33);
    EntrySize(5, CipherToValue(p.cipher), 41 + n);
    EntrySize(6, Array(p.aadIndex), 3 + 21 * k);
    assert ProfileKnown(p) + [] == ProfileKnown(p);
    Sum7(18, 2, 35, 2, 34, 42 + n, 4 + 21 * k);
    MapSize(ProfileKnown(p), [18, 2, 35, 2, 34, 42 + n, 4 + 21 * k]);
  }

  const MAX_PLAIN_PAYLOAD: nat := 16_936

  ghost predicate SmallPlain(p: Profile) {
    PlainProfile(p) && |p.cipher.ciphertext| <= MAX_PLAIN_PAYLOAD && |p.index| <= MAX_KEYS
  }

  // A Store of such profiles stays under 16 MiB.
  lemma StoreSize(s: Store)
    requires s.unknown == [] && |s.profiles| <= MAX_PROFILES && Sort(ProfileLess, s.profiles) == s.profiles
    requires forall i | 0 <= i < |s.profiles| :: SmallPlain(s.profiles[i])
    ensures |Wire(StoreToValue(s))| <= 2_873_648 < MAX_STORE_BYTES
  {
    hide Wire, WireEntry, ProfileToValue, ProfileValues, PlainProfile, Sort;
    var values := ProfileValues(s.profiles);
    forall i | 0 <= i < |values| ensures |Wire(values[i])| <= 22_450 {
      ProfileSize(s.profiles[i]);
    }
    ArraySize(values, 22_450);
    BytesSize(MAGIC);
    SmallUInt(STORE_VERSION);
    BytesSize(s.registryKey);
    EntrySize(0, Bytes(MAGIC), 5);
    EntrySize(1, UInt(STORE_VERSION), 1);
    EntrySize(2, Bytes(s.registryKey), 34);
    EntrySize(3, Array(values), 3 + 22_450 * 128);
    assert StoreKnown(s) + [] == StoreKnown(s);
    MapSize(StoreKnown(s), [6, 2, 35, 4 + 22_450 * 128]);
  }
}
