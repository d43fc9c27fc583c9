// The parser accepts exactly the wire forms of canonical values within its limits.
module CborTheory {
  import opened Wrappers
  import opened Bytes
  import opened Cbor
  import opened Sorting

  lemma AppendAssociates(a: seq<byte>, b: seq<byte>, c: seq<byte>)
    ensures a + (b + c) == a + b + c
  {
  }

  // ----- arguments

  lemma HeadParses(major: nat, n: u64, rest: seq<byte>)
    requires major < 8
    ensures var s := Head(major, n) + rest;
      && s[0] / 32 == major
      && ParseArgument(s[1..], s[0] % 32) == Ok((n, rest))
  {
    Pow256Values();
    var s := Head(major, n) + rest;
    if n <= 23 {
      assert s[1..] == rest;
    } else if n <= 0xff {
      assert ToBigEndian(n, 1) == [n] by { assert ToBigEndian(n / 256, 0) == []; }
      WideParses(s[1..], n, 1, 24, rest);
    } else if n <= 0xffff {
      assert s[1..] == ToBigEndian(n, 2) + rest;
      WideParses(s[1..], n, 2, 0x100, rest);
    } else if n <= 0xffff_ffff {
      assert s[1..] == ToBigEndian(n, 4) + rest;
      WideParses(s[1..], n, 4, 0x1_0000, rest);
    } else {
      assert s[1..] == ToBigEndian(n, 8) + rest;
      WideParses(s[1..], n, 8, 0x1_0000_0000, rest);
    }
  }

  lemma Pow256Values()
    ensures Pow256(1) == 0x100 && Pow256(2) == 0x1_0000 && Pow256(4) == 0x1_0000_0000
    ensures Pow256(8) == 0x1_0000_0000_0000_0000
  {
    assert Pow256(0) == 1;
    assert Pow256(3) == 0x100_0000;
    assert Pow256(5) == 0x100_0000_0000;
    assert Pow256(6) == 0x1_0000_0000_0000;
    assert Pow256(7) == 0x100_0000_0000_0000;
  }

  lemma WideParses(input: seq<byte>, n: u64, width: nat, minimum: nat, rest: seq<byte>)
    requires width <= 8 && minimum <= n < Pow256(width)
    requires input == ToBigEndian(n, width) + rest
    ensures ParseWide(input, width, minimum) == Ok((n, rest))
  {
    BigEndianReadsWritten(n, width);
    assert input[..width] == ToBigEndian(n, width) && input[width..] == rest;
  }

  lemma ParsedHead(major: nat, additional: nat, input: seq<byte>, n: u64, rest: seq<byte>)
    requires major < 8 && additional < 32
    requires ParseArgument(input, additional) == Ok((n, rest))
    ensures [major * 32 + additional] + input == Head(major, n) + rest
  {
    Pow256Values();
    if additional == 24 {
      ParsedWide(input, n, 1, 24, rest);
      assert ToBigEndian(n, 1) == [n] by { assert ToBigEndian(n / 256, 0) == []; }
    } else if additional == 25 {
      ParsedWide(input, n, 2, 0x100, rest);
    } else if additional == 26 {
      ParsedWide(input, n, 4, 0x1_0000, rest);
    } else if additional == 27 {
      ParsedWide(input, n, 8, 0x1_0000_0000, rest);
    }
  }

  lemma ParsedWide(input: seq<byte>, n: u64, width: nat, minimum: nat, rest: seq<byte>)
    requires width <= 8 && ParseWide(input, width, minimum) == Ok((n, rest))
    ensures minimum <= n < Pow256(width)
    ensures input == ToBigEndian(n, width) + rest
  {
    FromBigEndianBound(input[..width]);
    BigEndianWritesRead(input[..width]);
  }

  // ----- what is parsed is canonical, within limits, and is the wire form read

  lemma {:induction false} ParsedValue(input: seq<byte>, limits: Limits, budget: nat, v: Value, rest: seq<byte>)
    requires ParseValue(input, limits, budget) == Ok((v, rest))
    ensures input == Wire(v) + rest && Canonical(v) && Within(v, limits, budget)
    decreases budget, 0
  {
    var major, additional := input[0] / 32, input[0] % 32;
    assert input == [major * 32 + additional] + input[1..];
    ParsedBody(input[1..], major, additional, limits, budget - 1, v, rest);
  }

  lemma {:induction false} ParsedBody(
    input: seq<byte>, major: nat, additional: nat, limits: Limits, budget: nat, v: Value, rest: seq<byte>)
    requires major < 8 && additional < 32
    requires ParseBody(input, major, additional, limits, budget) == Ok((v, rest))
    ensures [major * 32 + additional] + input == Wire(v) + rest
    ensures Canonical(v) && Within(v, limits, budget + 1)
    decreases budget, 3
  {
    match major
    case 0 => ParsedHead(major, additional, input, v.n, rest);
    case 1 => ParsedHead(major, additional, input, v.n, rest);
    case 2 => ParsedStringBytes(input, major, additional, limits, v.bytes, rest);
    case 3 => ParsedStringBytes(input, major, additional, limits, v.text, rest);
    case 4 =>
      var (length, rest1) := ParseCollectionLength(input, additional, limits, false).value;
      ParsedArray(input, additional, limits, budget, length, rest1, v.items, rest);
    case 5 =>
      var (length, rest1) := ParseCollectionLength(input, additional, limits, true).value;
      ParsedMap(input, additional, limits, budget, length, rest1, v.entries, rest);
    case 6 => ParsedTag(input, additional, limits, budget, v.tag, v.inner, rest);
    case _ => ParsedSimple(input, additional, v, rest);
  }

  lemma ParsedSimple(input: seq<byte>, additional: nat, v: Value, rest: seq<byte>)
    requires additional < 32
    requires ParseSimple(input, additional) == Ok((v, rest))
    ensures [7 * 32 + additional] + input == Wire(v) + rest
    ensures (v.Simple? && WritableSimple(v.simple)) || v.Bool? || v.Null?
  {
    if additional == 24 {
      assert input == [input[0]] + input[1..];
    }
  }

  lemma {:induction false} ParsedArray(
    input: seq<byte>, additional: nat, limits: Limits, budget: nat,
    length: u64, rest1: seq<byte>, items: seq<Value>, rest: seq<byte>)
    requires additional < 32
    requires ParseCollectionLength(input, additional, limits, false) == Ok((length, rest1))
    requires ParseItems(rest1, length, limits, budget) == Ok((items, rest))
    ensures [4 * 32 + additional] + input == Wire(Array(items)) + rest
    ensures Canonical(Array(items)) && Within(Array(items), limits, budget + 1)
    decreases budget, 2
  {
    ParsedHead(4, additional, input, length, rest1);
    ParsedItems(rest1, length, limits, budget, items, rest);
    AppendAssociates(Head(4, length), WireItems(items), rest);
  }

  lemma {:induction false} ParsedMap(
    input: seq<byte>, additional: nat, limits: Limits, budget: nat,
    length: u64, rest1: seq<byte>, entries: seq<Entry>, rest: seq<byte>)
    requires additional < 32
    requires ParseCollectionLength(input, additional, limits, true) == Ok((length, rest1))
    requires ParseEntries(rest1, length, None, limits, budget) == Ok((entries, rest))
    ensures [5 * 32 + additional] + input == Wire(Map(entries)) + rest
    ensures Canonical(Map(entries)) && Within(Map(entries), limits, budget + 1)
    decreases budget, 2
  {
    ParsedHead(5, additional, input, length, rest1);
    ParsedEntries(rest1, length, None, limits, budget, entries, rest);
    AppendAssociates(Head(5, length), WireEntries(entries), rest);
  }

  lemma {:induction false} ParsedTag(
    input: seq<byte>, additional: nat, limits: Limits, budget: nat, tag: u64, inner: Value, rest: seq<byte>)
    requires additional < 32
    requires ParseBody(input, 6, additional, limits, budget) == Ok((Tag(tag, inner), rest))
    ensures [6 * 32 + additional] + input == Wire(Tag(tag, inner)) + rest
    ensures Canonical(inner) && Within(inner, limits, budget)
    decreases budget, 2
  {
    var (tag1, rest1) := ParseArgument(input, additional).value;
    ParsedHead(6, additional, input, tag1, rest1);
    ParsedValue(rest1, limits, budget, inner, rest);
    AppendAssociates(Head(6, tag), Wire(inner), rest);
  }

  lemma ParsedStringBytes(
    input: seq<byte>, major: nat, additional: nat, limits: Limits, b: seq<byte>, rest: seq<byte>)
    requires major < 8 && additional < 32
    requires ParseString(input, additional, limits) == Ok((b, rest))
    ensures |b| <= limits.maxString
    ensures [major * 32 + additional] + input == Head(major, AsU64(|b|)) + b + rest
  {
    var (length, rest1) := ParseArgument(input, additional).value;
    ParsedHead(major, additional, input, length, rest1);
    assert rest1 == b + rest;
    AppendAssociates(Head(major, length), b, rest);
  }

  lemma {:induction false} ParsedItems(
    input: seq<byte>, count: nat, limits: Limits, budget: nat, items: seq<Value>, rest: seq<byte>)
    requires ParseItems(input, count, limits, budget) == Ok((items, rest))
    ensures |items| == count && input == WireItems(items) + rest
    ensures forall i | 0 <= i < |items| :: Canonical(items[i]) && Within(items[i], limits, budget)
    decreases budget, 1, count
  {
    if count > 0 {
      var (item, rest1) := ParseValue(input, limits, budget).value;
      var (tail, rest2) := ParseItems(rest1, count - 1, limits, budget).value;
      ParsedValue(input, limits, budget, item, rest1);
      ParsedItems(rest1, count - 1, limits, budget, tail, rest);
      assert items[1..] == tail;
    }
  }

  lemma {:induction false} ParsedEntries(
    input: seq<byte>, count: nat, previous: Option<u64>, limits: Limits, budget: nat,
    entries: seq<Entry>, rest: seq<byte>)
    requires ParseEntries(input, count, previous, limits, budget) == Ok((entries, rest))
    ensures |entries| == count && input == WireEntries(entries) + rest
    ensures Ascending(entries)
    ensures previous.Some? ==> forall i | 0 <= i < |entries| :: previous.value < entries[i].key
    ensures forall i | 0 <= i < |entries| :: Canonical(entries[i].value) && Within(entries[i].value, limits, budget)
    decreases budget, 1, count
  {
    if count == 0 {
      assert WireEntries(entries) + rest == rest;
    } else {
      var (key, rest1) := ParseKey(input, previous, limits, budget).value;
      var (value, rest2) := ParseValue(rest1, limits, budget).value;
      var (tail, rest3) := ParseEntries(rest2, count - 1, Some(key), limits, budget).value;
      ParsedValue(input, limits, budget, UInt(key), rest1);
      ParsedValue(rest1, limits, budget, value, rest2);
      ParsedEntries(rest2, count - 1, Some(key), limits, budget, tail, rest);
      assert entries == [Entry(key, value)] + tail && entries[1..] == tail;
      ParsedEntryWire(input, key, value, entries, rest1, rest2, rest);
    }
  }

  lemma ParsedEntryWire(
    input: seq<byte>, key: u64, value: Value, entries: seq<Entry>, rest1: seq<byte>, rest2: seq<byte>, rest: seq<byte>)
    requires entries != [] && entries[0] == Entry(key, value)
    requires input == Head(0, key) + rest1 && rest1 == Wire(value) + rest2
    requires rest2 == WireEntries(entries[1..]) + rest
    ensures input == WireEntries(entries) + rest
  {
    AppendAssociates(Head(0, key), Wire(value), rest2);
    AppendAssociates(WireEntry(entries[0]), WireEntries(entries[1..]), rest);
  }

  // ----- every canonical value within the limits is parsed back, whatever follows it

  lemma {:induction false} WireParses(v: Value, rest: seq<byte>, limits: Limits, budget: nat)
    requires Canonical(v) && Within(v, limits, budget)
    ensures ParseValue(Wire(v) + rest, limits, budget) == Ok((v, rest))
    decreases v, 1
  {
    var input := Wire(v) + rest;
    match v
    case UInt(n) => HeadParses(0, n, rest);
    case Negative(n) => HeadParses(1, n, rest);
    case Bytes(b) => StringParses(2, b, rest, limits, input);
    case Text(t) => StringParses(3, t, rest, limits, input);
    case Array(_) => ArrayParses(v, rest, limits, budget);
    case Map(_) => MapParses(v, rest, limits, budget);
    case Tag(_, _) => TagParses(v, rest, limits, budget);
    case Simple(s) => assert input[|WireSimple(s)|..] == rest;
    case Bool(flag) => assert input[1..] == rest;
    case Null => assert input[1..] == rest;
  }

  lemma {:induction false} ArrayParses(v: Value, rest: seq<byte>, limits: Limits, budget: nat)
    requires v.Array? && Canonical(v) && Within(v, limits, budget)
    ensures ParseValue(Wire(v) + rest, limits, budget) == Ok((v, rest))
    decreases v, 0
  {
    var head, tail := Head(4, |v.items|), WireItems(v.items) + rest;
    AppendAssociates(head, WireItems(v.items), rest);
    HeadParses(4, |v.items|, tail);
    ItemsParse(v.items, rest, limits, budget - 1);
  }

  lemma {:induction false} MapParses(v: Value, rest: seq<byte>, limits: Limits, budget: nat)
    requires v.Map? && Canonical(v) && Within(v, limits, budget)
    ensures ParseValue(Wire(v) + rest, limits, budget) == Ok((v, rest))
    decreases v, 0
  {
    var head, tail := Head(5, |v.entries|), WireEntries(v.entries) + rest;
    AppendAssociates(head, WireEntries(v.entries), rest);
    HeadParses(5, |v.entries|, tail);
    EntriesParse(v.entries, None, rest, limits, budget - 1);
  }

  lemma {:induction false} TagParses(v: Value, rest: seq<byte>, limits: Limits, budget: nat)
    requires v.Tag? && Canonical(v) && Within(v, limits, budget)
    ensures ParseValue(Wire(v) + rest, limits, budget) == Ok((v, rest))
    decreases v, 0
  {
    AppendAssociates(Head(6, v.tag), Wire(v.inner), rest);
    HeadParses(6, v.tag, Wire(v.inner) + rest);
    WireParses(v.inner, rest, limits, budget - 1);
  }

  lemma KeyParses(key: u64, previous: Option<u64>, rest: seq<byte>, limits: Limits, budget: nat)
    requires budget > 0 && (previous.Some? ==> previous.value < key)
    ensures ParseKey(Head(0, key) + rest, previous, limits, budget) == Ok((key, rest))
  {
    HeadParses(0, key, rest);
    assert ParseValue(Head(0, key) + rest, limits, budget) == Ok((UInt(key), rest));
  }

  lemma StringParses(major: nat, b: seq<byte>, rest: seq<byte>, limits: Limits, input: seq<byte>)
    requires major < 8 && |b| <= limits.maxString
    requires input == Head(major, AsU64(|b|)) + b + rest
    ensures input[0] / 32 == major && ParseString(input[1..], input[0] % 32, limits) == Ok((b, rest))
  {
    HeadParses(major, |b|, b + rest);
    assert input == Head(major, |b|) + (b + rest);
    assert (b + rest)[..|b|] == b && (b + rest)[|b|..] == rest;
  }

  lemma {:induction false} ItemsParse(items: seq<Value>, rest: seq<byte>, limits: Limits, budget: nat)
    requires forall i | 0 <= i < |items| :: Canonical(items[i]) && Within(items[i], limits, budget)
    ensures ParseItems(WireItems(items) + rest, |items|, limits, budget) == Ok((items, rest))
    decreases items, 1
  {
    if items == [] {
      assert WireItems(items) + rest == rest;
    } else {
      var tail := WireItems(items[1..]) + rest;
      assert WireItems(items) + rest == Wire(items[0]) + tail;
      WireParses(items[0], tail, limits, budget);
      ItemsParse(items[1..], rest, limits, budget);
      assert items == [items[0]] + items[1..];
    }
  }

  lemma {:induction false} EntriesParse(
    entries: seq<Entry>, previous: Option<u64>, rest: seq<byte>, limits: Limits, budget: nat)
    requires Ascending(entries)
    requires previous.Some? && entries != [] ==> previous.value < entries[0].key
    requires forall i | 0 <= i < |entries| :: Canonical(entries[i].value) && Within(entries[i].value, limits, budget)
    ensures ParseEntries(WireEntries(entries) + rest, |entries|, previous, limits, budget) == Ok((entries, rest))
    decreases entries, 1
  {
    if entries == [] {
      assert WireEntries(entries) + rest == rest;
    } else {
      var Entry(key, value) := entries[0];
      var tail := WireEntries(entries[1..]) + rest;
      assert entries[0].value < entries[0];
      AppendAssociates(Head(0, key), Wire(value), tail);
      AppendAssociates(WireEntry(entries[0]), WireEntries(entries[1..]), rest);
      assert WireEntries(entries) + rest == Head(0, key) + (Wire(value) + tail);
      assert Within(value, limits, budget);
      KeyParses(key, previous, Wire(value) + tail, limits, budget);
      WireParses(value, tail, limits, budget);
      EntriesParse(entries[1..], Some(key), rest, limits, budget);
      assert entries == [entries[0]] + entries[1..];
    }
  }

  // `decode_with_limits` succeeds with `v` exactly on the wire form of `v`, for `v`
  // canonical and within the limits.
  lemma DecodeExactly(input: seq<byte>, limits: Limits, v: Value)
    ensures Decode(input, limits) == Ok(v) <==>
      && input == Wire(v)
      && Canonical(v)
      && Within(v, limits, limits.maxDepth)
      && |input| <= limits.maxInput
  {
    if Decode(input, limits) == Ok(v) {
      ParsedValue(input, limits, limits.maxDepth, v, []);
      assert Wire(v) + [] == Wire(v);
    }
    if input == Wire(v) && Canonical(v) && Within(v, limits, limits.maxDepth) {
      WireParses(v, [], limits, limits.maxDepth);
      assert Wire(v) + [] == Wire(v);
    }
  }

  // ----- the encoder

  lemma KeyOrder()
    ensures Order(KeyLess)
  {
  }

  lemma {:induction false} NormalizeIsCanonical(v: Value)
    requires Encodable(v)
    ensures Canonical(Normalize(v))
  {
    match v
    case Array(items) =>
      forall i | 0 <= i < |items| ensures Canonical(Normalize(items[i])) {
        NormalizeIsCanonical(items[i]);
      }
    case Map(entries) =>
      var normal := NormalizeEntries(entries);
      forall i | 0 <= i < |entries| ensures Canonical(normal[i].value) {
        NormalizeIsCanonical(entries[i].value);
      }
      KeyOrder();
      SortStrictly(KeyLess, normal);
      SortMembers(normal);
      var sorted := Sort(KeyLess, normal);
      forall i | 0 <= i < |sorted| ensures Canonical(sorted[i].value) {
        assert sorted[i] in normal;
      }
    case Tag(_, inner) => NormalizeIsCanonical(inner);
    case _ =>
  }

  lemma SortMembers(entries: seq<Entry>)
    ensures forall e :: e in Sort(KeyLess, entries) <==> e in entries
  {
    SortPermutes(KeyLess, entries);
    PermutationMembers(Sort(KeyLess, entries), entries);
  }

  // A canonical value is encoded as it is.
  lemma {:induction false} CanonicalIsNormal(v: Value)
    requires Canonical(v)
    ensures Encodable(v) && Normalize(v) == v
  {
    match v
    case Array(items) =>
      forall i | 0 <= i < |items| ensures Encodable(items[i]) && Normalize(items[i]) == items[i] {
        CanonicalIsNormal(items[i]);
      }
      assert NormalizeItems(items) == items;
    case Map(entries) =>
      forall i | 0 <= i < |entries| ensures Encodable(entries[i].value) && NormalizeEntry(entries[i]) == entries[i] {
        CanonicalIsNormal(entries[i].value);
      }
      assert NormalizeEntries(entries) == entries;
      SortKeepsSorted(KeyLess, entries);
    case Tag(_, inner) => CanonicalIsNormal(inner);
    case _ =>
  }

  lemma {:induction false} NormalizeWithin(v: Value, limits: Limits, budget: nat)
    ensures Within(Normalize(v), limits, budget) <==> Within(v, limits, budget)
    decreases v
  {
    if budget > 0 {
      match v
      case Array(items) =>
        forall i | 0 <= i < |items|
          ensures Within(Normalize(items[i]), limits, budget - 1) <==> Within(items[i], limits, budget - 1)
        {
          NormalizeWithin(items[i], limits, budget - 1);
        }
        var normal := NormalizeItems(items);
        assert forall i | 0 <= i < |items| :: Within(normal[i], limits, budget - 1) <==> Within(items[i], limits, budget - 1);
      case Map(entries) => NormalizeMapWithin(v, limits, budget);
      case Tag(_, inner) => NormalizeWithin(inner, limits, budget - 1);
      case _ =>
    }
  }

  lemma {:induction false} NormalizeMapWithin(v: Value, limits: Limits, budget: nat)
    requires v.Map? && budget > 0
    ensures Within(Normalize(v), limits, budget) <==> Within(v, limits, budget)
    decreases v, 0
  {
    var entries := v.entries;
    var normal := NormalizeEntries(entries);
    var sorted := Sort(KeyLess, normal);
    forall i | 0 <= i < |entries|
      ensures Within(normal[i].value, limits, budget - 1) <==> Within(entries[i].value, limits, budget - 1)
    {
      NormalizeWithin(entries[i].value, limits, budget - 1);
    }
    SortMembers(normal);
    if Within(Map(sorted), limits, budget) {
      forall i | 0 <= i < |entries| ensures Within(entries[i].value, limits, budget - 1) {
        assert normal[i] in sorted;
      }
    }
    if Within(v, limits, budget) {
      forall i | 0 <= i < |sorted| ensures Within(sorted[i].value, limits, budget - 1) {
        assert sorted[i] in normal;
      }
    }
  }

  // Whatever the decoder accepts is encoded to the same bytes.
  lemma DecodeThenEncode(input: seq<byte>, limits: Limits, v: Value)
    requires Decode(input, limits) == Ok(v)
    ensures Encode(v) == Ok(input)
  {
    DecodeExactly(input, limits, v);
    CanonicalIsNormal(v);
  }

  // An encoding is decoded to the value in key order exactly when it is within the limits.
  lemma EncodeThenDecode(v: Value, limits: Limits)
    requires Encodable(v) && MachineSized(v)
    ensures Decode(Wire(Normalize(v)), limits) == Ok(Normalize(v)) <==>
      Within(v, limits, limits.maxDepth) && |Wire(Normalize(v))| <= limits.maxInput
    ensures Decode(Wire(Normalize(v)), limits).Ok? ==> Decode(Wire(Normalize(v)), limits) == Ok(Normalize(v))
  {
    var normal := Normalize(v);
    NormalizeIsCanonical(v);
    NormalizeWithin(v, limits, limits.maxDepth);
    DecodeExactly(Wire(normal), limits, normal);
    if Decode(Wire(normal), limits).Ok? {
      var w := Decode(Wire(normal), limits).value;
      DecodeExactly(Wire(normal), limits, w);
      WithinIsMachineSized(w, limits, limits.maxDepth);
      NormalizeMachineSized(v);
      WireIsPrefixFree(w, normal, [], []);
    }
  }

  // ----- the wire form determines the value

  // What a Rust value satisfies by its types: no length reaches 2^64.
  ghost predicate MachineSized(v: Value) {
    match v
    case Bytes(b) => |b| < 0x1_0000_0000_0000_0000
    case Text(t) => |t| < 0x1_0000_0000_0000_0000
    case Array(items) =>
      |items| < 0x1_0000_0000_0000_0000 && forall i | 0 <= i < |items| :: MachineSized(items[i])
    case Map(entries) =>
      |entries| < 0x1_0000_0000_0000_0000 && forall i | 0 <= i < |entries| :: MachineSized(entries[i].value)
    case Tag(_, inner) => MachineSized(inner)
    case _ => true
  }

  const UNLIMITED := Limits(0xffff_ffff_ffff_ffff, 0xffff_ffff_ffff_ffff, 0xffff_ffff_ffff_ffff, 0xffff_ffff_ffff_ffff)

  function Nesting(v: Value): (n: nat)
    ensures n > 0
  {
    match v
    case Array(items) => 1 + NestingOfItems(items)
    case Map(entries) => 1 + NestingOfEntries(entries)
    case Tag(_, inner) => 1 + Nesting(inner)
    case _ => 1
  }

  function NestingOfItems(items: seq<Value>): (n: nat)
    ensures forall i | 0 <= i < |items| :: Nesting(items[i]) <= n
  {
    if items == [] then 0 else
    var a, b := Nesting(items[0]), NestingOfItems(items[1..]);
    if a > b then a else b
  }

  function NestingOfEntries(entries: seq<Entry>): (n: nat)
    ensures forall i | 0 <= i < |entries| :: NestingOfEntry(entries[i]) <= n
  {
    if entries == [] then 0 else
    var a, b := NestingOfEntry(entries[0]), NestingOfEntries(entries[1..]);
    if a > b then a else b
  }

  function NestingOfEntry(entry: Entry): nat {
    Nesting(entry.value)
  }

  lemma {:induction false} WithinNesting(v: Value, budget: nat)
    requires MachineSized(v) && budget >= Nesting(v)
    ensures Within(v, UNLIMITED, budget)
  {
    match v
    case Array(items) =>
      forall i | 0 <= i < |items| ensures Within(items[i], UNLIMITED, budget - 1) {
        WithinNesting(items[i], budget - 1);
      }
    case Map(entries) =>
      forall i | 0 <= i < |entries| ensures Within(entries[i].value, UNLIMITED, budget - 1) {
        assert NestingOfEntry(entries[i]) <= NestingOfEntries(entries);
        WithinNesting(entries[i].value, budget - 1);
      }
    case Tag(_, inner) => WithinNesting(inner, budget - 1);
    case _ =>
  }

  lemma {:induction false} WithinIsMachineSized(v: Value, limits: Limits, budget: nat)
    requires Within(v, limits, budget)
    ensures MachineSized(v)
    decreases v
  {
    match v
    case Array(items) =>
      forall i | 0 <= i < |items| ensures MachineSized(items[i]) {
        WithinIsMachineSized(items[i], limits, budget - 1);
      }
    case Map(entries) =>
      forall i | 0 <= i < |entries| ensures MachineSized(entries[i].value) {
        WithinIsMachineSized(entries[i].value, limits, budget - 1);
      }
    case Tag(_, inner) => WithinIsMachineSized(inner, limits, budget - 1);
    case _ =>
  }

  lemma {:induction false} NormalizeMachineSized(v: Value)
    requires MachineSized(v)
    ensures MachineSized(Normalize(v))
  {
    match v
    case Array(items) =>
      forall i | 0 <= i < |items| ensures MachineSized(Normalize(items[i])) {
        NormalizeMachineSized(items[i]);
      }
    case Map(entries) =>
      var normal := NormalizeEntries(entries);
      forall i | 0 <= i < |entries| ensures MachineSized(normal[i].value) {
        NormalizeMachineSized(entries[i].value);
      }
      SortMembers(normal);
      var sorted := Sort(KeyLess, normal);
      forall i | 0 <= i < |sorted| ensures MachineSized(sorted[i].value) {
        assert sorted[i] in normal;
      }
    case Tag(_, inner) => NormalizeMachineSized(inner);
    case _ =>
  }

  // No wire form is a proper prefix of another, and each belongs to one value.
  lemma WireIsPrefixFree(v: Value, w: Value, s: seq<byte>, t: seq<byte>)
    requires Canonical(v) && MachineSized(v) && Canonical(w) && MachineSized(w)
    requires Wire(v) + s == Wire(w) + t
    ensures v == w && s == t
  {
    var budget := Nesting(v) + Nesting(w);
    WithinNesting(v, budget);
    WithinNesting(w, budget);
    WireParses(v, s, UNLIMITED, budget);
    WireParses(w, t, UNLIMITED, budget);
  }
}
