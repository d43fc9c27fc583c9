// The accepted bytes spelled out: every head, value and limit in literal numbers, apart from the
// wire form the other proofs are about.
module CborSpelling {
  import opened Wrappers
  import opened Bytes
  import opened Sorting
  import opened Utf8
  import opened Cbor
  import opened CborTheory

  // ----- heads

  function Two(n: nat): seq<byte> {
    [n / 0x100 % 256, n % 256]
  }

  function Four(n: nat): seq<byte> {
    Two(n / 0x1_0000) + Two(n)
  }

  function HeadBytes(major: nat, n: nat): seq<byte>
    requires major < 8
  {
    if n < 24 then [major * 32 + n]
    else if n < 0x100 then [major * 32 + 24, n]
    else if n < 0x1_0000 then [major * 32 + 25] + Two(n)
    else if n < 0x1_0000_0000 then [major * 32 + 26] + Four(n)
    else [major * 32 + 27] + Four(n / 0x1_0000_0000) + Four(n)
  }

  lemma LastByte(n: nat, k: nat)
    ensures ToBigEndian(n, k + 1) == ToBigEndian(n / 256, k) + [n % 256]
  {
  }

  lemma LastTwo(n: nat, k: nat)
    ensures ToBigEndian(n, k + 2) == ToBigEndian(n / 0x1_0000, k) + Two(n)
  {
    LastByte(n, k + 1);
    LastByte(n / 256, k);
    assert n / 256 / 256 == n / 0x1_0000;
  }

  lemma LastFour(n: nat, k: nat)
    ensures ToBigEndian(n, k + 4) == ToBigEndian(n / 0x1_0000_0000, k) + Four(n)
  {
    hide ToBigEndian;
    LastTwo(n, k + 2);
    LastTwo(n / 0x1_0000, k);
    assert n / 0x1_0000 / 0x1_0000 == n / 0x1_0000_0000;
  }

  lemma Widths(n: nat)
    ensures ToBigEndian(n, 2) == Two(n)
    ensures ToBigEndian(n, 4) == Four(n)
    ensures ToBigEndian(n, 8) == Four(n / 0x1_0000_0000) + Four(n)
  {
    hide Two, Four, ToBigEndian;
    NoBytes(n / 0x1_0000);
    NoBytes(n / 0x1_0000_0000);
    NoBytes(n / 0x1_0000_0000 / 0x1_0000_0000);
    LastTwo(n, 0);
    LastFour(n, 0);
    LastFour(n / 0x1_0000_0000, 0);
    LastFour(n, 4);
    assert [] + Two(n) == Two(n) && [] + Four(n) == Four(n);
    assert [] + Four(n / 0x1_0000_0000) == Four(n / 0x1_0000_0000);
  }

  lemma NoBytes(n: nat)
    ensures ToBigEndian(n, 0) == []
  {
  }

  lemma HeadSpelled(major: nat, n: u64)
    requires major < 8
    ensures Head(major, n) == HeadBytes(major, n)
  {
    hide Two, Four, ToBigEndian;
    Widths(n);
  }

  // ----- values

  // The bytes of a value; text is the encoding of scalar values.
  function Spelling(v: Value): seq<byte> {
    match v
    case UInt(n) => HeadBytes(0, n)
    case Negative(n) => HeadBytes(1, n)
    case Bytes(b) => HeadBytes(2, |b|) + b
    case Text(t) => HeadBytes(3, |t|) + t
    case Array(items) => HeadBytes(4, |items|) + SpellingOfItems(items)
    case Map(entries) => HeadBytes(5, |entries|) + SpellingOfEntries(entries)
    case Tag(tag, inner) => HeadBytes(6, tag) + Spelling(inner)
    case Simple(s) => if s < 24 then [0xe0 + s] else [0xf8, s]
    case Bool(flag) => if flag then [0xf5] else [0xf4]
    case Null => [0xf6]
  }

  function SpellingOfItems(items: seq<Value>): seq<byte> {
    if items == [] then [] else SpellingOfItems(items[..|items| - 1]) + Spelling(items[|items| - 1])
  }

  function SpellingOfEntries(entries: seq<Entry>): seq<byte> {
    if entries == [] then []
    else
      var last := |entries| - 1;
      SpellingOfEntries(entries[..last]) + SpellingOfEntry(entries[last])
  }

  function SpellingOfEntry(entry: Entry): seq<byte> {
    HeadBytes(0, entry.key) + Spelling(entry.value)
  }

  // What may be read at a depth: strings of up to 1 MiB, collections of up to 256 elements, map
  // keys in ascending order, no other spelling of the booleans and null, no reserved simple value.
  ghost predicate Readable(v: Value, depth: nat) {
    depth > 0 &&
    match v
    case UInt(_) => true
    case Negative(_) => true
    case Bytes(b) => |b| <= 1048576
    case Text(t) => |t| <= 1048576 && IsText(t)
    case Array(items) => |items| <= 256 && forall i | 0 <= i < |items| :: Readable(items[i], depth - 1)
    case Map(entries) =>
      && |entries| <= 256
      && (forall i | 0 < i < |entries| :: entries[i - 1].key < entries[i].key)
      && forall i | 0 <= i < |entries| :: Readable(entries[i].value, depth - 1)
    case Tag(_, inner) => Readable(inner, depth - 1)
    case Simple(s) => s < 20 || s == 23 || s > 31
    case Bool(_) => true
    case Null => true
  }

  lemma {:induction false} Neighbours(entries: seq<Entry>, i: nat, j: nat)
    requires forall k | 0 < k < |entries| :: entries[k - 1].key < entries[k].key
    requires i < j < |entries|
    ensures entries[i].key < entries[j].key
  {
    if i + 1 < j {
      Neighbours(entries, i, j - 1);
    }
  }

  lemma AscendingMeans(entries: seq<Entry>)
    ensures Ascending(entries) <==> forall i | 0 < i < |entries| :: entries[i - 1].key < entries[i].key
  {
    if forall i | 0 < i < |entries| :: entries[i - 1].key < entries[i].key {
      forall i, j | 0 <= i < j < |entries| ensures entries[i].key < entries[j].key {
        Neighbours(entries, i, j);
      }
    }
  }

  lemma {:induction false} ReadableExactly(v: Value, depth: nat)
    ensures Readable(v, depth) <==> Canonical(v) && Within(v, Limits(16777216, 1048576, 256, 32), depth)
  {
    hide IsText;
    if depth > 0 {
      match v
      case Text(t) =>
        Utf8Exactly(t);
      case Array(items) =>
        forall i | 0 <= i < |items| ensures Readable(items[i], depth - 1) <==>
          Canonical(items[i]) && Within(items[i], Limits(16777216, 1048576, 256, 32), depth - 1)
        {
          ReadableExactly(items[i], depth - 1);
        }
      case Map(entries) =>
        AscendingMeans(entries);
        forall i | 0 <= i < |entries| ensures Readable(entries[i].value, depth - 1) <==>
          Canonical(entries[i].value) && Within(entries[i].value, Limits(16777216, 1048576, 256, 32), depth - 1)
        {
          ReadableExactly(entries[i].value, depth - 1);
        }
      case Tag(_, inner) =>
        ReadableExactly(inner, depth - 1);
      case _ =>
    }
  }

  // The input limit does not matter to the values.
  lemma {:induction false} SameWithin(v: Value, a: Limits, b: Limits, depth: nat)
    requires a.maxString == b.maxString && a.maxCollection == b.maxCollection
    ensures Within(v, a, depth) <==> Within(v, b, depth)
  {
    if depth > 0 {
      match v
      case Array(items) =>
        forall i | 0 <= i < |items| ensures Within(items[i], a, depth - 1) <==> Within(items[i], b, depth - 1) {
          SameWithin(items[i], a, b, depth - 1);
        }
      case Map(entries) =>
        forall i | 0 <= i < |entries|
          ensures Within(entries[i].value, a, depth - 1) <==> Within(entries[i].value, b, depth - 1)
        {
          SameWithin(entries[i].value, a, b, depth - 1);
        }
      case Tag(_, inner) =>
        SameWithin(inner, a, b, depth - 1);
      case _ =>
    }
  }

  lemma {:induction false} Spelled(v: Value)
    requires Canonical(v) && MachineSized(v)
    ensures Wire(v) == Spelling(v)
  {
    hide HeadBytes, Head;
    match v
    case UInt(n) => HeadSpelled(0, n);
    case Negative(n) => HeadSpelled(1, n);
    case Bytes(b) => HeadSpelled(2, |b|);
    case Text(t) => HeadSpelled(3, |t|);
    case Array(items) => HeadSpelled(4, |items|); ItemsSpelled(items);
    case Map(entries) => HeadSpelled(5, |entries|); EntriesSpelled(entries);
    case Tag(tag, inner) => HeadSpelled(6, tag); Spelled(inner);
    case Simple(s) =>
    case Bool(flag) =>
    case Null =>
  }

  lemma {:induction false} ItemsSpelled(items: seq<Value>)
    requires forall i | 0 <= i < |items| :: Canonical(items[i]) && MachineSized(items[i])
    ensures WireItems(items) == SpellingOfItems(items)
  {
    hide Wire, Spelling;
    if items != [] {
      var front, last := items[..|items| - 1], items[|items| - 1];
      ItemsSpelled(front);
      Spelled(last);
      ItemsAppend(front, last);
      assert items == front + [last];
    }
  }

  lemma {:induction false} ItemsAppend(items: seq<Value>, item: Value)
    ensures WireItems(items + [item]) == WireItems(items) + Wire(item)
  {
    hide Wire;
    if items != [] {
      ItemsAppend(items[1..], item);
      assert (items + [item])[1..] == items[1..] + [item];
    }
  }

  lemma {:induction false} EntriesSpelled(entries: seq<Entry>)
    requires forall i | 0 <= i < |entries| :: Canonical(entries[i].value) && MachineSized(entries[i].value)
    ensures WireEntries(entries) == SpellingOfEntries(entries)
  {
    hide Wire, Spelling, Head, HeadBytes;
    if entries != [] {
      var front, last := entries[..|entries| - 1], entries[|entries| - 1];
      EntriesSpelled(front);
      assert last.value < last;
      Spelled(last.value);
      HeadSpelled(0, last.key);
      EntriesAppend(front, last);
      assert entries == front + [last];
    }
  }

  lemma {:induction false} EntriesAppend(entries: seq<Entry>, entry: Entry)
    ensures WireEntries(entries + [entry]) == WireEntries(entries) + WireEntry(entry)
  {
    hide WireEntry;
    if entries != [] {
      EntriesAppend(entries[1..], entry);
      assert (entries + [entry])[1..] == entries[1..] + [entry];
    }
  }

  // ----- decoding

  // A Store input is accepted exactly when it spells a readable value at depth 32 in at most
  // 16 MiB; a payload in at most 1 MiB.
  lemma StoreInput(input: seq<byte>, v: Value)
    ensures Decode(input, WALLET_STORE_LIMITS) == Ok(v) <==>
      |input| <= 16777216 && Readable(v, 32) && input == Spelling(v)
  {
    hide Wire, Spelling, Readable, Canonical, Within, Decode;
    DecodeExactly(input, WALLET_STORE_LIMITS, v);
    ReadableExactly(v, 32);
    SpelledWithin(v, WALLET_STORE_LIMITS);
  }

  lemma PayloadInput(input: seq<byte>, v: Value)
    ensures Decode(input, PROFILE_PAYLOAD_LIMITS) == Ok(v) <==>
      |input| <= 1048576 && Readable(v, 32) && input == Spelling(v)
  {
    hide Wire, Spelling, Readable, Canonical, Within, Decode;
    DecodeExactly(input, PROFILE_PAYLOAD_LIMITS, v);
    ReadableExactly(v, 32);
    SameWithin(v, WALLET_STORE_LIMITS, PROFILE_PAYLOAD_LIMITS, 32);
    SpelledWithin(v, WALLET_STORE_LIMITS);
  }

  lemma SpelledWithin(v: Value, limits: Limits)
    ensures Canonical(v) && Within(v, limits, 32) ==> Wire(v) == Spelling(v)
  {
    hide Wire, Spelling, Canonical, Within, MachineSized;
    if Canonical(v) && Within(v, limits, 32) {
      WithinIsMachineSized(v, limits, 32);
      Spelled(v);
    }
  }

  // The encoder writes the same bytes, with every map in ascending order of its keys.
  lemma EncodedSpelling(v: Value, bytes: seq<byte>)
    requires MachineSized(v) && Encode(v) == Ok(bytes)
    ensures bytes == Spelling(Normalize(v))
  {
    hide Wire, Spelling, Canonical, Normalize, Encodable, MachineSized;
    NormalizeIsCanonical(v);
    NormalizeMachineSized(v);
    Spelled(Normalize(v));
  }

  // ----- depth

  function Nested(k: nat): Value {
    if k <= 1 then Array([]) else Array([Nested(k - 1)])
  }

  function NestedBytes(k: nat): (s: seq<byte>)
    ensures |s| == if k <= 1 then 1 else k
  {
    if k <= 1 then [0x80] else [0x81] + NestedBytes(k - 1)
  }

  lemma {:induction false} NestedReadable(k: nat, depth: nat)
    requires k > 0
    ensures Readable(Nested(k), depth) <==> k <= depth
    ensures Spelling(Nested(k)) == NestedBytes(k)
  {
    if k == 1 {
      assert Spelling(Array([])) == [0x80] + [];
    } else {
      if depth > 0 {
        NestedReadable(k - 1, depth - 1);
      } else {
        NestedReadable(k - 1, 0);
      }
      OneItem(Nested(k - 1));
      assert Nested(k).items[0] == Nested(k - 1);
    }
  }

  lemma OneItem(v: Value)
    ensures Spelling(Array([v])) == [0x81] + Spelling(v)
  {
    hide Spelling;
    assert SpellingOfItems([v]) == SpellingOfItems([]) + Spelling(v);
    ArraySpelling([v]);
  }

  lemma ArraySpelling(items: seq<Value>)
    ensures Spelling(Array(items)) == HeadBytes(4, |items|) + SpellingOfItems(items)
  {
  }

  // Thirty-two arrays may be nested, and no more.
  lemma DepthExactly(k: nat)
    requires k > 0
    ensures Decode(NestedBytes(k), WALLET_STORE_LIMITS) == Ok(Nested(k)) <==> k <= 32
  {
    hide Decode, Readable, Spelling, NestedBytes, Nested;
    NestedReadable(k, 32);
    NestedSize(k);
    StoreInput(NestedBytes(k), Nested(k));
  }

  lemma NestedSize(k: nat)
    ensures |NestedBytes(k)| <= k + 1
  {
  }
}
