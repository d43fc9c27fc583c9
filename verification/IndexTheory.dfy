// The plaintext index: the one-pass merge, and its agreement with the payload.
module IndexTheory {
  import opened Wrappers
  import opened Bytes
  import opened Sorting
  import opened Cbor
  import opened WalletTypes
  import opened StoreFormat
  import opened StoreFormatTheory
  import opened StoreOps

  // ----- a parsed index

  lemma {:induction false} IndexParsed(values: seq<Value>, index: seq<IndexEntry>)
    requires ParseIndex(values) == Ok(index)
    ensures |values| == |index| && StrictlySorted(IndexLess, index)
    ensures forall i | 0 <= i < |index| :: ParseIndexEntry(values[i]) == Ok(index[i])
  {
    hide ParseIndexEntry, Less, Order;
    if values != [] {
      var n := |values| - 1;
      var front := ParseIndex(values[..n]).value;
      IndexParsed(values[..n], front);
      IndexOrder();
      ExtendSorted(IndexLess, front, index[n]);
    }
  }

  lemma {:induction false} IndexBuilt(values: seq<Value>, index: seq<IndexEntry>)
    requires |values| == |index| && StrictlySorted(IndexLess, index)
    requires forall i | 0 <= i < |index| :: ParseIndexEntry(values[i]) == Ok(index[i])
    ensures ParseIndex(values) == Ok(index)
  {
    hide ParseIndexEntry, Less;
    if values != [] {
      var n := |values| - 1;
      IndexBuilt(values[..n], index[..n]);
      assert index == index[..n] + [index[n]];
      if n > 0 {
        assert IndexLess(index[n - 1], index[n]);
      }
    }
  }

  lemma IndexOrder()
    ensures Order(IndexLess)
  {
    forall a: IndexEntry, b: IndexEntry ensures IndexLess(a, b) ==> !IndexLess(b, a) {
      if IndexLess(a, b) {
        LessAsymmetric(a.keyId, b.keyId);
      }
    }
    forall a: IndexEntry, b: IndexEntry, c: IndexEntry
      ensures !IndexLess(b, a) && !IndexLess(c, b) ==> !IndexLess(c, a)
    {
      LessWeak(a.keyId, b.keyId, c.keyId);
    }
  }

  // Sorting the keys and then listing them is listing and then sorting.
  lemma {:induction false} IndexOfSortedKeys(keys: seq<KeyRecord>)
    ensures Sort(IndexLess, IndexOfKeys(keys)) == IndexOfKeys(Sort(KeyIdLess, keys))
  {
    if keys != [] {
      var front, last := keys[..|keys| - 1], keys[|keys| - 1];
      IndexOfSortedKeys(front);
      assert IndexOfKeys(keys)[..|keys| - 1] == IndexOfKeys(front);
      IndexOfInserted(Sort(KeyIdLess, front), last);
    }
  }

  lemma {:induction false} IndexOfInserted(keys: seq<KeyRecord>, key: KeyRecord)
    ensures IndexOfKeys(Insert(KeyIdLess, keys, key)) == Insert(IndexLess, IndexOfKeys(keys), IndexOfKey(key))
  {
    hide Less;
    if keys != [] {
      var front, last := keys[..|keys| - 1], keys[|keys| - 1];
      assert IndexOfKeys(keys)[..|keys| - 1] == IndexOfKeys(front);
      if KeyIdLess(key, last) {
        IndexOfInserted(front, key);
      }
    }
  }

  lemma IndexOfSorted(keys: seq<KeyRecord>)
    requires StrictlySorted(KeyIdLess, keys)
    ensures StrictlySorted(IndexLess, IndexOfKeys(keys))
  {
    hide Less;
    var index := IndexOfKeys(keys);
    forall i, j | 0 <= i < j < |index| ensures IndexLess(index[i], index[j]) {
      assert KeyIdLess(keys[i], keys[j]);
    }
  }

  // ----- the merge equals a lookup of each id among the existing values

  // The extension fields of the first existing value with this key id.
  function UnknownOf(existing: seq<Value>, keyId: Bytes16): seq<Entry> {
    if existing == [] then []
    else if WireKeyId(existing[0]) == Some(keyId) then UnknownFields(existing[0].entries, 2)
    else UnknownOf(existing[1..], keyId)
  }

  ghost predicate IdsAscending(existing: seq<Value>) {
    && (forall i | 0 <= i < |existing| :: WireKeyId(existing[i]).Some?)
    && (forall i, j | 0 <= i < j < |existing| :: Less(WireKeyId(existing[i]).value, WireKeyId(existing[j]).value))
  }

  lemma ParsedIdsAscend(values: seq<Value>, index: seq<IndexEntry>)
    requires ParseIndex(values) == Ok(index)
    ensures |values| == |index| && IdsAscending(values)
    ensures forall i | 0 <= i < |index| :: WireKeyId(values[i]) == Some(index[i].keyId)
  {
    hide ParseIndex, ParseIndexEntry, WireKeyId, Less;
    IndexParsed(values, index);
    forall i | 0 <= i < |index| ensures WireKeyId(values[i]) == Some(index[i].keyId) {
      EntryHasId(values[i], index[i]);
    }
    forall i, j | 0 <= i < j < |values| ensures Less(WireKeyId(values[i]).value, WireKeyId(values[j]).value) {
      assert IndexLess(index[i], index[j]);
    }
  }

  lemma EntryHasId(v: Value, entry: IndexEntry)
    requires ParseIndexEntry(v) == Ok(entry)
    ensures WireKeyId(v) == Some(entry.keyId)
  {
    hide MapValue, UnknownFields, UnknownAllowed;
  }

  lemma {:induction false} SkippingDrops(existing: seq<Value>, keyId: Bytes16)
    ensures var rest := SkipSmaller(existing, keyId);
      |rest| <= |existing| && rest == existing[|existing| - |rest|..]
  {
    hide WireKeyId, Less;
    if existing != [] {
      SkippingDrops(existing[1..], keyId);
    }
  }

  lemma {:induction false} SkippingKeepsLookup(existing: seq<Value>, at: Bytes16, keyId: Bytes16)
    requires at == keyId || Less(at, keyId)
    ensures UnknownOf(SkipSmaller(existing, at), keyId) == UnknownOf(existing, keyId)
  {
    hide WireKeyId;
    if existing != [] {
      var id := WireKeyId(existing[0]);
      if id.None? || Less(id.value, at) {
        SkippingKeepsLookup(existing[1..], at, keyId);
        if id.Some? {
          LessAsymmetric(id.value, at);
          if at != keyId {
            LessTransitive(id.value, at, keyId);
            LessAsymmetric(id.value, keyId);
          }
        }
      }
    }
  }

  lemma {:induction false} SkippingStops(existing: seq<Value>, at: Bytes16)
    ensures var rest := SkipSmaller(existing, at);
      rest != [] ==> WireKeyId(rest[0]).Some? && !Less(WireKeyId(rest[0]).value, at)
  {
    if existing != [] {
      SkippingStops(existing[1..], at);
    }
  }

  lemma {:induction false} NoneLater(existing: seq<Value>, keyId: Bytes16)
    requires IdsAscending(existing)
    requires existing != [] ==> Less(keyId, WireKeyId(existing[0]).value)
    ensures UnknownOf(existing, keyId) == []
  {
    hide WireKeyId;
    if existing != [] {
      var first := WireKeyId(existing[0]).value;
      LessAsymmetric(keyId, first);
      if |existing| > 1 {
        LessTransitive(keyId, first, WireKeyId(existing[1]).value);
      }
      NoneLater(existing[1..], keyId);
    }
  }

  lemma CursorLooksUp(existing: seq<Value>, keyId: Bytes16)
    requires IdsAscending(existing)
    ensures UnknownAtCursor(SkipSmaller(existing, keyId), keyId) == UnknownOf(existing, keyId)
  {
    hide WireKeyId, Less;
    var rest := SkipSmaller(existing, keyId);
    SkippingKeepsLookup(existing, keyId, keyId);
    SkippingStops(existing, keyId);
    if rest != [] && WireKeyId(rest[0]) != Some(keyId) {
      LessTotal(keyId, WireKeyId(rest[0]).value);
      SkippingDrops(existing, keyId);
      SuffixAscends(existing, |existing| - |rest|);
      NoneLater(rest, keyId);
    }
  }

  lemma SuffixAscends(existing: seq<Value>, k: nat)
    requires IdsAscending(existing) && k <= |existing|
    ensures IdsAscending(existing[k..])
  {
  }

  // The merge attaches to every entry the extension fields that its key id had.
  lemma {:induction false} MergeIsLookup(index: seq<IndexEntry>, existing: seq<Value>)
    requires StrictlySorted(IndexLess, index) && IdsAscending(existing)
    ensures forall i | 0 <= i < |index| ::
      MergeIndex(index, existing)[i] == Map(IndexKnown(index[i]) + UnknownOf(existing, index[i].keyId))
  {
    hide WireKeyId, SkipSmaller, UnknownOf, UnknownAtCursor, Less, IndexKnown;
    if index != [] {
      var keyId := index[0].keyId;
      var rest := SkipSmaller(existing, keyId);
      CursorLooksUp(existing, keyId);
      SkippingDrops(existing, keyId);
      SuffixAscends(existing, |existing| - |rest|);
      MergeIsLookup(index[1..], rest);
      forall i | 0 < i < |index|
        ensures MergeIndex(index, existing)[i] == Map(IndexKnown(index[i]) + UnknownOf(existing, index[i].keyId))
      {
        assert IndexLess(index[0], index[i]) && index[i] == index[1..][i - 1];
        SkippingKeepsLookup(existing, keyId, index[i].keyId);
      }
    }
  }

  // Looking up the merged values again gives the same fields: merging is stable.
  lemma LookupInMerge(values: seq<Value>, index: seq<IndexEntry>, i: nat)
    requires ParseIndex(values) == Ok(index) && i < |index|
    ensures i < |values| && values[i].Map?
    ensures UnknownOf(values, index[i].keyId) == UnknownFields(values[i].entries, 2)
  {
    ParsedIdsAscend(values, index);
    LookupAt(values, i);
  }

  lemma {:induction false} LookupAt(values: seq<Value>, i: nat)
    requires IdsAscending(values) && i < |values|
    ensures UnknownOf(values, WireKeyId(values[i]).value) == UnknownFields(values[i].entries, 2)
  {
    hide WireKeyId;
    if i > 0 {
      LessAsymmetric(WireKeyId(values[0]).value, WireKeyId(values[i]).value);
      LookupAt(values[1..], i - 1);
    }
  }

  lemma {:induction false} NotListed(values: seq<Value>, keyId: Bytes16)
    requires forall i | 0 <= i < |values| :: WireKeyId(values[i]) != Some(keyId)
    ensures UnknownOf(values, keyId) == []
  {
    if values != [] {
      NotListed(values[1..], keyId);
    }
  }
}
