// The encrypted payload, like the Store, is accepted exactly on the encoding of a well-formed one.
module PayloadTheory {
  import opened Wrappers
  import opened Bytes
  import opened Sorting
  import opened Cbor
  import opened CborTheory
  import opened WalletTypes
  import opened StoreFormat
  import opened StoreFormatTheory

  ghost predicate KeyWellFormed(key: KeyRecord) {
    && Extension(key.unknown, 4, PAYLOAD, 29)
    && Extension(key.originUnknown, OriginFields(key.origin), PAYLOAD, 28)
  }

  lemma OriginRead(fields: seq<Entry>, origin: Origin)
    requires Admissible(Map(fields), PAYLOAD, 29)
    requires ParseOrigin(fields) == Ok(origin) && UnknownAllowed(fields, OriginFields(origin))
    ensures fields == OriginKnown(origin) + UnknownFields(fields, OriginFields(origin))
    ensures Extension(UnknownFields(fields, OriginFields(origin)), OriginFields(origin), PAYLOAD, 28)
  {
    hide Admissible, Extension, UnknownAllowed, UnknownFields;
    MapRead(fields, OriginKnown(origin), PAYLOAD, 29);
  }

  lemma OriginBuilt(origin: Origin, unknown: seq<Entry>)
    requires Extension(unknown, OriginFields(origin), PAYLOAD, 28)
    ensures var fields := OriginKnown(origin) + unknown;
      && Admissible(Map(fields), PAYLOAD, 29)
      && ParseOrigin(fields) == Ok(origin)
      && UnknownAllowed(fields, OriginFields(origin))
      && UnknownFields(fields, OriginFields(origin)) == unknown
  {
    hide Extension, UnknownAllowed, UnknownFields;
    MapBuilt(OriginKnown(origin), unknown, PAYLOAD, 29);
  }

  ghost predicate KeyParts(fields: seq<Entry>, originFields: seq<Entry>, key: KeyRecord) {
    && UnknownAllowed(fields, 4)
    && MapValue(fields, 0) == Some(Bytes(key.keyId))
    && MapValue(fields, 1) == Some(UInt(key.chain.Wire()))
    && MapValue(fields, 2) == Some(Bytes(key.privateKey))
    && MapValue(fields, 3) == Some(Map(originFields))
    && ParseOrigin(originFields) == Ok(key.origin)
    && UnknownAllowed(originFields, OriginFields(key.origin))
    && key.unknown == UnknownFields(fields, 4)
    && key.originUnknown == UnknownFields(originFields, OriginFields(key.origin))
  }

  lemma KeyFromParts(fields: seq<Entry>, originFields: seq<Entry>, key: KeyRecord)
    requires MapValue(fields, 3) == Some(Map(originFields))
    ensures ParseKeyRecord(Map(fields)) == Ok(key) <==> KeyParts(fields, originFields, key)
  {
    hide MapValue, UnknownFields, UnknownAllowed, ParseOrigin;
  }

  lemma KeyHasOrigin(fields: seq<Entry>)
    requires ParseKeyRecord(Map(fields)).Ok?
    ensures MapValue(fields, 3).Some? && MapValue(fields, 3).value.Map?
  {
    hide MapValue, UnknownFields, UnknownAllowed, ParseOrigin;
  }

  lemma KeyRead(v: Value, key: KeyRecord)
    requires Admissible(v, PAYLOAD, 30) && ParseKeyRecord(v) == Ok(key)
    ensures KeyWellFormed(key) && v == KeyToValue(key)
  {
    hide Admissible, Extension, MapValue, UnknownFields, UnknownAllowed, ParseOrigin, OriginKnown;
    var fields := v.entries;
    KeyHasOrigin(fields);
    var originFields := MapValue(fields, 3).value.entries;
    KeyFromParts(fields, originFields, key);
    FieldAdmissible(fields, 3, PAYLOAD, 30);
    OriginRead(originFields, key.origin);
    MapRead(fields, KeyKnown(key), PAYLOAD, 30);
  }

  lemma KeyBuilt(key: KeyRecord)
    requires KeyWellFormed(key)
    ensures Admissible(KeyToValue(key), PAYLOAD, 30) && ParseKeyRecord(KeyToValue(key)) == Ok(key)
  {
    hide Admissible, Extension, MapValue, UnknownFields, UnknownAllowed, ParseOrigin, OriginKnown, ParseKeyRecord;
    OriginBuilt(key.origin, key.originUnknown);
    BytesAdmissible(key.keyId, PAYLOAD, 29);
    UIntAdmissible(key.chain.Wire(), PAYLOAD, 29);
    BytesAdmissible(key.privateKey, PAYLOAD, 29);
    MapBuilt(KeyKnown(key), key.unknown, PAYLOAD, 30);
    KeyFromParts(KeyKnown(key) + key.unknown, OriginKnown(key.origin) + key.originUnknown, key);
  }

  ghost predicate KeysWellFormed(keys: seq<KeyRecord>) {
    && StrictlySorted(KeyIdLess, keys)
    && forall i | 0 <= i < |keys| :: KeyWellFormed(keys[i])
  }

  lemma {:induction false} KeysRead(values: seq<Value>, keys: seq<KeyRecord>)
    requires forall i | 0 <= i < |values| :: Admissible(values[i], PAYLOAD, 30)
    requires ParseKeys(values) == Ok(keys)
    ensures KeysWellFormed(keys) && values == KeyValues(keys)
  {
    hide ParseKeyRecord, KeyToValue, KeyWellFormed, Less, Admissible;
    if values != [] {
      LastKeyParsed(values, keys);
      var front, last := keys[..|keys| - 1], keys[|keys| - 1];
      KeysRead(values[..|values| - 1], front);
      KeyRead(values[|values| - 1], last);
      LastKeyRead(values, front, last);
    }
  }

  lemma LastKeyParsed(values: seq<Value>, keys: seq<KeyRecord>)
    requires values != [] && ParseKeys(values) == Ok(keys)
    ensures keys != [] && ParseKeys(values[..|values| - 1]) == Ok(keys[..|keys| - 1])
    ensures ParseKeyRecord(values[|values| - 1]) == Ok(keys[|keys| - 1])
    ensures |keys| > 1 ==> Less(keys[|keys| - 2].keyId, keys[|keys| - 1].keyId)
    ensures keys == keys[..|keys| - 1] + [keys[|keys| - 1]]
  {
    hide ParseKeyRecord, Less;
    var front := ParseKeys(values[..|values| - 1]).value;
    var last := ParseKeyRecord(values[|values| - 1]).value;
    assert keys == front + [last];
    assert keys[..|keys| - 1] == front;
  }

  lemma LastKeyRead(values: seq<Value>, front: seq<KeyRecord>, last: KeyRecord)
    requires values != [] && KeysWellFormed(front) && KeyWellFormed(last)
    requires values[..|values| - 1] == KeyValues(front) && values[|values| - 1] == KeyToValue(last)
    requires front == [] || Less(front[|front| - 1].keyId, last.keyId)
    ensures KeysWellFormed(front + [last]) && values == KeyValues(front + [last])
  {
    hide KeyToValue, KeyWellFormed, Less, Order, KeyValues, StrictlySorted;
    LessOrder();
    ExtendSorted(KeyIdLess, front, last);
    AppendKeyValue(front, last);
    assert values == values[..|values| - 1] + [values[|values| - 1]];
  }

  lemma AppendKeyValue(front: seq<KeyRecord>, last: KeyRecord)
    ensures KeyValues(front + [last]) == KeyValues(front) + [KeyToValue(last)]
  {
    assert (front + [last])[..|front|] == front;
  }

  lemma {:induction false} KeysBuilt(keys: seq<KeyRecord>)
    requires KeysWellFormed(keys)
    ensures ParseKeys(KeyValues(keys)) == Ok(keys)
  {
    hide ParseKeyRecord, KeyToValue, KeyWellFormed, Less, Admissible;
    if keys != [] {
      var front, last := keys[..|keys| - 1], keys[|keys| - 1];
      KeysBuilt(front);
      KeyBuilt(last);
      LastKey(keys);
      KeyAppended(KeyValues(keys), front, last);
    }
  }

  lemma LastKey(keys: seq<KeyRecord>)
    requires KeysWellFormed(keys) && keys != []
    ensures var front, last := keys[..|keys| - 1], keys[|keys| - 1];
      && KeyValues(keys)[..|keys| - 1] == KeyValues(front)
      && keys == front + [last]
      && (front != [] ==> Less(front[|front| - 1].keyId, last.keyId))
  {
    hide KeyToValue, KeyWellFormed, Less;
    if |keys| > 1 {
      assert KeyIdLess(keys[|keys| - 2], keys[|keys| - 1]);
    }
  }

  lemma KeyAppended(values: seq<Value>, front: seq<KeyRecord>, x: KeyRecord)
    requires values != [] && ParseKeys(values[..|values| - 1]) == Ok(front)
    requires ParseKeyRecord(values[|values| - 1]) == Ok(x)
    requires front == [] || Less(front[|front| - 1].keyId, x.keyId)
    ensures ParseKeys(values) == Ok(front + [x])
  {
    hide ParseKeyRecord, Less;
  }

  ghost predicate PayloadWellFormed(p: Payload) {
    && Extension(p.unknown, 2, PAYLOAD, 31)
    && |p.keys| <= MAX_KEYS
    && KeysWellFormed(p.keys)
  }

  ghost predicate PayloadParts(fields: seq<Entry>, values: seq<Value>, p: Payload) {
    && UnknownAllowed(fields, 2)
    && MapValue(fields, 0) == Some(Bytes(p.entropy))
    && MapValue(fields, 1) == Some(Array(values))
    && |values| <= MAX_KEYS
    && ParseKeys(values) == Ok(p.keys)
    && p.unknown == UnknownFields(fields, 2)
  }

  lemma PayloadFromParts(fields: seq<Entry>, values: seq<Value>, p: Payload)
    requires MapValue(fields, 1) == Some(Array(values))
    ensures ParsePayloadValue(Map(fields)) == Ok(p) <==> PayloadParts(fields, values, p)
  {
    hide MapValue, UnknownFields, UnknownAllowed, ParseKeys;
  }

  lemma PayloadHasKeys(v: Value)
    requires ParsePayloadValue(v).Ok?
    ensures v.Map? && MapValue(v.entries, 1).Some? && MapValue(v.entries, 1).value.Array?
  {
    hide MapValue, UnknownFields, UnknownAllowed, ParseKeys;
  }

  lemma PayloadRead(v: Value, p: Payload)
    requires Admissible(v, PAYLOAD, 32) && ParsePayloadValue(v) == Ok(p)
    ensures PayloadWellFormed(p) && v == PayloadToValue(p)
  {
    hide ParseKeys, KeyToValue, KeysWellFormed, Admissible, Extension, MapValue, ParsePayloadValue, UnknownFields,
      UnknownAllowed, Sort, KeyValues;
    PayloadHasKeys(v);
    var fields := v.entries;
    var values := MapValue(fields, 1).value.items;
    PayloadFromParts(fields, values, p);
    PayloadKeysRead(fields, values, p.keys);
    MapRead(fields, PayloadKnown(p), PAYLOAD, 32);
  }

  lemma PayloadKeysRead(fields: seq<Entry>, values: seq<Value>, keys: seq<KeyRecord>)
    requires Admissible(Map(fields), PAYLOAD, 32)
    requires MapValue(fields, 1) == Some(Array(values)) && ParseKeys(values) == Ok(keys)
    ensures KeysWellFormed(keys) && values == KeyValues(keys) && |values| == |keys| && Sort(KeyIdLess, keys) == keys
  {
    hide Admissible, MapValue;
    FieldAdmissible(fields, 1, PAYLOAD, 32);
    ArrayAdmissible(values, PAYLOAD, 31);
    KeysRead(values, keys);
    SortKeepsKeys(keys);
  }

  lemma SortKeepsKeys(keys: seq<KeyRecord>)
    requires StrictlySorted(KeyIdLess, keys)
    ensures Sort(KeyIdLess, keys) == keys
  {
    LessOrder();
    SortKeepsSorted(KeyIdLess, keys);
  }

  lemma KeyValuesAdmissible(keys: seq<KeyRecord>)
    requires KeysWellFormed(keys) && |keys| <= MAX_KEYS
    ensures Admissible(Array(KeyValues(keys)), PAYLOAD, 31)
  {
    hide Admissible, KeyToValue, KeyWellFormed, ParseKeyRecord, KeyValues;
    forall i | 0 <= i < |keys| ensures Admissible(KeyValues(keys)[i], PAYLOAD, 30) {
      KeyBuilt(keys[i]);
    }
    ArrayAdmissible(KeyValues(keys), PAYLOAD, 31);
  }

  lemma PayloadBuilt(p: Payload)
    requires PayloadWellFormed(p)
    ensures Admissible(PayloadToValue(p), PAYLOAD, 32) && ParsePayloadValue(PayloadToValue(p)) == Ok(p)
  {
    hide Admissible, MapValue, UnknownFields, UnknownAllowed, ParseKeys, ParsePayloadValue, KeyWellFormed, KeyToValue,
      Less, Sort, KeyValues;
    SortKeepsKeys(p.keys);
    KeyValuesAdmissible(p.keys);
    BytesAdmissible(p.entropy, PAYLOAD, 31);
    MapBuilt(PayloadKnown(p), p.unknown, PAYLOAD, 32);
    KeysBuilt(p.keys);
    PayloadFromParts(PayloadKnown(p) + p.unknown, KeyValues(p.keys), p);
  }

  lemma PayloadEncoding(p: Payload)
    requires PayloadWellFormed(p)
    ensures EncodePayload(p) == Ok(Wire(PayloadToValue(p)))
  {
    hide Wire, Canonical, Within, ParsePayloadValue, PayloadToValue, KeysWellFormed, Extension;
    PayloadBuilt(p);
    CanonicalIsNormal(PayloadToValue(p));
  }

  // A payload is read from a plaintext exactly when it is well formed, the plaintext is its
  // encoding, and that has at most 1 MiB.
  lemma PayloadCodec(bytes: seq<byte>, p: Payload)
    ensures ParsePayload(bytes) == Ok(p) <==>
      PayloadWellFormed(p) && EncodePayload(p) == Ok(bytes) && |bytes| <= PAYLOAD.maxInput
  {
    hide Wire, Canonical, Within, ParsePayloadValue, PayloadToValue, KeysWellFormed, EncodePayload, Decode, Extension;
    if ParsePayload(bytes) == Ok(p) {
      var v := Decode(bytes, PAYLOAD).value;
      DecodeExactly(bytes, PAYLOAD, v);
      PayloadRead(v, p);
      PayloadEncoding(p);
    }
    if PayloadWellFormed(p) && EncodePayload(p) == Ok(bytes) && |bytes| <= PAYLOAD.maxInput {
      PayloadBuilt(p);
      PayloadEncoding(p);
      DecodeExactly(bytes, PAYLOAD, PayloadToValue(p));
    }
  }
}
