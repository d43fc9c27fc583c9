// The parser and writer as they run: a cursor over the input, and one growing output.
module CborCodec {
  import opened Wrappers
  import opened Bytes
  import opened Sorting
  import opened Cbor
  import opened CborTheory

  // `spec` with the elements already read put back in front.
  function Resume<T>(done: seq<T>, spec: Parsed<seq<T>>): Parsed<seq<T>> {
    match spec
    case Ok((s, rest)) => Ok((done + s, rest))
    case Err(e) => Err(e)
  }

  lemma ResumeStart<T>(spec: Parsed<seq<T>>)
    ensures Resume([], spec) == spec
  {
    if spec.Ok? {
      assert [] + spec.value.0 == spec.value.0;
    }
  }

  lemma ResumeStep<T>(done: seq<T>, x: T, s: seq<T>, rest: seq<byte>)
    ensures Resume(done, Ok(([x] + s, rest))) == Resume(done + [x], Ok((s, rest)))
  {
    assert done + ([x] + s) == done + [x] + s;
  }

  lemma ResumeEnd<T>(done: seq<T>, rest: seq<byte>)
    ensures Resume(done, Ok(([], rest))) == Ok((done, rest))
  {
    assert done + [] == done;
  }

  class Parser {
    const input: seq<byte>
    const limits: Limits
    var offset: nat
    var depth: nat

    constructor (input: seq<byte>, limits: Limits)
      ensures Valid() && this.input == input && this.limits == limits
      ensures Remaining() == input && Budget() == limits.maxDepth
    {
      this.input := input;
      this.limits := limits;
      offset, depth := 0, 0;
    }

    ghost predicate Valid()
      reads this
    {
      offset <= |input| && depth <= limits.maxDepth
    }

    ghost function Remaining(): seq<byte>
      requires Valid()
      reads this
    {
      input[offset..]
    }

    ghost function Budget(): nat
      requires Valid()
      reads this
    {
      limits.maxDepth - depth
    }

    // The outcome of a method that started at a suffix on which `spec` is the grammar's outcome.
    ghost predicate Follows<T>(r: Result<T, CborError>, spec: Parsed<T>)
      requires Valid()
      reads this
    {
      match spec
      case Ok((value, rest)) => r == Ok(value) && Remaining() == rest
      case Err(e) => r == Err(e)
    }

    method TakeBytes(count: nat) returns (r: Result<seq<byte>, CborError>)
      requires Valid()
      modifies this`offset
      ensures Valid() && Follows(r, Take(old(Remaining()), count))
    {
      var end := offset + count;
      if end > |input| {
        return Err(CborError);
      }
      r := Ok(input[offset..end]);
      offset := end;
      assert r.value == old(Remaining())[..count] && Remaining() == old(Remaining())[count..];
    }

    method ReadValue() returns (r: Result<Value, CborError>)
      requires Valid()
      modifies this
      ensures Valid() && depth == old(depth)
      ensures Follows(r, ParseValue(old(Remaining()), limits, old(Budget())))
      decreases Budget(), 0
    {
      if depth >= limits.maxDepth {
        return Err(CborError);
      }
      depth := depth + 1;
      r := ReadInner();
      depth := depth - 1;
    }

    method ReadInner() returns (r: Result<Value, CborError>)
      requires Valid() && depth > 0
      modifies this
      ensures Valid() && depth == old(depth)
      ensures Follows(r, ParseValue(old(Remaining()), limits, old(Budget()) + 1))
      decreases Budget(), 3
    {
      var initial :- TakeBytes(1);
      var major, additional := initial[0] / 32, initial[0] % 32;
      match major
      case 0 =>
        var n :- ReadArgument(additional);
        r := Ok(UInt(n));
      case 1 =>
        var n :- ReadArgument(additional);
        r := Ok(Negative(n));
      case 2 =>
        var b :- ReadString(additional);
        r := Ok(Bytes(b));
      case 3 =>
        var b :- ReadString(additional);
        r := if IsUtf8(b) then Ok(Text(b)) else Err(CborError);
      case 4 =>
        var length :- ReadCollectionLength(additional, false);
        var items :- ReadItems(length);
        r := Ok(Array(items));
      case 5 =>
        var length :- ReadCollectionLength(additional, true);
        var entries :- ReadEntries(length);
        r := Ok(Map(entries));
      case 6 =>
        var tag :- ReadArgument(additional);
        var inner :- ReadValue();
        r := Ok(Tag(tag, inner));
      case _ =>
        r := ReadSimple(additional);
    }

    method ReadItems(length: u64) returns (r: Result<seq<Value>, CborError>)
      requires Valid()
      modifies this
      ensures Valid() && depth == old(depth)
      ensures Follows(r, ParseItems(old(Remaining()), length, limits, old(Budget())))
      decreases Budget(), 1
    {
      var values := [];
      ResumeStart(ParseItems(Remaining(), length, limits, Budget()));
      for i := 0 to length
        invariant Valid() && depth == old(depth) && |values| == i
        invariant ParseItems(old(Remaining()), length, limits, old(Budget()))
               == Resume(values, ParseItems(Remaining(), length - i, limits, Budget()))
      {
        var value :- ReadValue();
        ghost var tail := ParseItems(Remaining(), length - i - 1, limits, Budget());
        if tail.Ok? {
          ResumeStep(values, value, tail.value.0, tail.value.1);
        }
        values := values + [value];
      }
      ResumeEnd(values, Remaining());
      r := Ok(values);
    }

    method ReadEntries(length: u64) returns (r: Result<seq<Entry>, CborError>)
      requires Valid()
      modifies this
      ensures Valid() && depth == old(depth)
      ensures Follows(r, ParseEntries(old(Remaining()), length, None, limits, old(Budget())))
      decreases Budget(), 1
    {
      var entries := [];
      var previous: Option<u64> := None;
      ResumeStart(ParseEntries(Remaining(), length, None, limits, Budget()));
      for i := 0 to length
        invariant Valid() && depth == old(depth) && |entries| == i
        invariant ParseEntries(old(Remaining()), length, None, limits, old(Budget()))
               == Resume(entries, ParseEntries(Remaining(), length - i, previous, limits, Budget()))
      {
        var key :- ReadValue();
        if !key.UInt? || (previous.Some? && key.n <= previous.value) {
          return Err(CborError);
        }
        var value :- ReadValue();
        previous := Some(key.n);
        ghost var tail := ParseEntries(Remaining(), length - i - 1, previous, limits, Budget());
        if tail.Ok? {
          ResumeStep(entries, Entry(key.n, value), tail.value.0, tail.value.1);
        }
        entries := entries + [Entry(key.n, value)];
      }
      ResumeEnd(entries, Remaining());
      r := Ok(entries);
    }

    method ReadSimple(additional: nat) returns (r: Result<Value, CborError>)
      requires Valid() && additional < 32
      modifies this`offset
      ensures Valid() && Follows(r, ParseSimple(old(Remaining()), additional))
    {
      if additional <= 19 || additional == 23 {
        r := Ok(Simple(additional));
      } else if additional == 20 {
        r := Ok(Bool(false));
      } else if additional == 21 {
        r := Ok(Bool(true));
      } else if additional == 22 {
        r := Ok(Null);
      } else if additional == 24 {
        var value :- TakeBytes(1);
        r := if value[0] < 32 then Err(CborError) else Ok(Simple(value[0]));
      } else {
        r := Err(CborError);
      }
    }

    method ReadArgument(additional: nat) returns (r: Result<u64, CborError>)
      requires Valid() && additional < 32
      modifies this`offset
      ensures Valid() && Follows(r, ParseArgument(old(Remaining()), additional))
    {
      if additional <= 23 {
        return Ok(additional);
      }
      if additional > 27 {
        return Err(CborError);
      }
      var width, minimum :=
        if additional == 24 then 1 else if additional == 25 then 2 else if additional == 26 then 4 else 8,
        if additional == 24 then 24 else if additional == 25 then 0x100
        else if additional == 26 then 0x1_0000 else 0x1_0000_0000;
      var bytes :- TakeBytes(width);
      var value := ReadU64(bytes);
      r := if value < minimum then Err(CborError) else Ok(value);
    }

    method ReadString(additional: nat) returns (r: Result<seq<byte>, CborError>)
      requires Valid() && additional < 32
      modifies this`offset
      ensures Valid() && Follows(r, ParseString(old(Remaining()), additional, limits))
    {
      var length :- ReadArgument(additional);
      if length > limits.maxString {
        return Err(CborError);
      }
      r := TakeBytes(length);
    }

    method ReadCollectionLength(additional: nat, isMap: bool) returns (r: Result<u64, CborError>)
      requires Valid() && additional < 32
      modifies this`offset
      ensures Valid() && Follows(r, ParseCollectionLength(old(Remaining()), additional, limits, isMap))
    {
      var length :- ReadArgument(additional);
      var left := |input| - offset;
      var capacity := if isMap then left / 2 else left;
      r := if length > limits.maxCollection || length > capacity then Err(CborError) else Ok(length);
    }
  }

  // `decode_with_limits`; CborTheory.DecodeExactly says what it accepts.
  method DecodeWithLimits(input: seq<byte>, limits: Limits) returns (r: Result<Value, CborError>)
    ensures r == Decode(input, limits)
  {
    if |input| > limits.maxInput {
      return Err(CborError);
    }
    var parser := new Parser(input, limits);
    var value :- parser.ReadValue();
    r := if parser.offset != |input| then Err(CborError) else Ok(value);
  }

  class Writer {
    var output: seq<byte>

    constructor ()
      ensures output == []
    {
      output := [];
    }

    method WriteArgument(major: nat, n: u64)
      requires major < 8
      modifies this
      ensures output == old(output) + Head(major, n)
    {
      var prefix := major * 32;
      if n <= 23 {
        output := output + [prefix + n];
      } else if n <= 0xff {
        output := output + [prefix + 24, n];
      } else if n <= 0xffff {
        output := output + [prefix + 25];
        output := output + ToBigEndian(n, 2);
      } else if n <= 0xffff_ffff {
        output := output + [prefix + 26];
        output := output + ToBigEndian(n, 4);
      } else {
        output := output + [prefix + 27];
        output := output + ToBigEndian(n, 8);
      }
    }

    method WriteSimple(s: byte) returns (r: Result<(), CborError>)
      modifies this
      ensures r.Ok? <==> WritableSimple(s)
      ensures r.Ok? ==> output == old(output) + WireSimple(s)
    {
      if s <= 19 || s == 23 {
        output := output + [0xe0 + s];
        return Ok(());
      }
      if s <= 31 {
        return Err(CborError);
      }
      output := output + [0xf8, s];
      r := Ok(());
    }

    // Appends the wire form with every map in key order; fails on a repeated key or a
    // reserved simple value anywhere inside.
    method WriteValue(v: Value) returns (r: Result<(), CborError>)
      modifies this
      ensures r.Ok? <==> Encodable(v)
      ensures r.Ok? ==> output == old(output) + Wire(Normalize(v))
      decreases v
    {
      hide Head;
      r := Ok(());
      match v
      case UInt(n) => WriteArgument(0, n);
      case Negative(n) => WriteArgument(1, n);
      case Bytes(b) =>
        WriteArgument(2, AsU64(|b|));
        output := output + b;
      case Text(t) =>
        WriteArgument(3, AsU64(|t|));
        output := output + t;
      case Array(items) =>
        WriteArgument(4, AsU64(|items|));
        r := WriteItems(items);
        AppendAssociates(old(output), Head(4, AsU64(|items|)), WireItems(NormalizeItems(items)));
      case Map(entries) =>
        r := WriteMap(entries);
      case Tag(tag, inner) =>
        WriteArgument(6, tag);
        r := WriteValue(inner);
      case Simple(s) =>
        r := WriteSimple(s);
      case Bool(flag) =>
        output := output + [if flag then 0xf5 else 0xf4];
      case Null =>
        output := output + [0xf6];
    }

    method WriteItems(items: seq<Value>) returns (r: Result<(), CborError>)
      modifies this
      ensures r.Ok? <==> forall j | 0 <= j < |items| :: Encodable(items[j])
      ensures r.Ok? ==> output == old(output) + WireItems(NormalizeItems(items))
      decreases items
    {
      hide Head;
      ghost var normal := NormalizeItems(items);
      for i := 0 to |items|
        invariant output == old(output) + WireItems(normal[..i])
        invariant forall j | 0 <= j < i :: Encodable(items[j])
      {
        ghost var before := output;
        var written := WriteValue(items[i]);
        if written.Err? {
          return written;
        }
        ItemsStep(old(output), before, output, normal, i);
      }
      assert normal[..|items|] == normal;
      r := Ok(());
    }

    method WriteMap(entries: seq<Entry>) returns (r: Result<(), CborError>)
      modifies this
      ensures r.Ok? <==> Encodable(Map(entries))
      ensures r.Ok? ==> output == old(output) + Wire(Normalize(Map(entries)))
      decreases entries, 1
    {
      var sorted := Sort(KeyLess, entries);
      var repeated := HasNeighboursWithOneKey(sorted);
      MapWritten(entries);
      MapEncodable(entries);
      if repeated {
        return Err(CborError);
      }
      WriteArgument(5, AsU64(|sorted|));
      r := WriteSorted(entries, sorted);
      AppendAssociates(old(output), Head(5, AsU64(|sorted|)), WireEntries(NormalizeEntries(sorted)));
    }

    method WriteSorted(ghost entries: seq<Entry>, sorted: seq<Entry>) returns (r: Result<(), CborError>)
      requires sorted == Sort(KeyLess, entries)
      modifies this
      ensures r.Ok? <==> forall j | 0 <= j < |sorted| :: EncodableEntry(sorted[j])
      ensures r.Ok? ==> output == old(output) + WireEntries(NormalizeEntries(sorted))
      decreases entries, 0
    {
      hide Head;
      ghost var normal := NormalizeEntries(sorted);
      for i := 0 to |sorted|
        invariant output == old(output) + WireEntries(normal[..i])
        invariant forall j | 0 <= j < i :: EncodableEntry(sorted[j])
      {
        SortedMember(entries, i);
        ghost var before := output;
        var written := WriteEntry(sorted[i]);
        if written.Err? {
          return written;
        }
        EntriesStep(old(output), before, output, normal, i);
      }
      assert normal[..|sorted|] == normal;
      r := Ok(());
    }

    method WriteEntry(entry: Entry) returns (r: Result<(), CborError>)
      modifies this
      ensures r.Ok? <==> EncodableEntry(entry)
      ensures r.Ok? ==> output == old(output) + WireEntry(NormalizeEntry(entry))
      decreases entry
    {
      WriteArgument(0, entry.key);
      r := WriteValue(entry.value);
      AppendAssociates(old(output), Head(0, entry.key), Wire(Normalize(entry.value)));
    }
  }

  method EncodeValue(v: Value) returns (r: Result<seq<byte>, CborError>)
    ensures r == Encode(v)
  {
    var writer := new Writer();
    var written := writer.WriteValue(v);
    if written.Err? {
      return Err(CborError);
    }
    r := Ok(writer.output);
    assert [] + Wire(Normalize(v)) == Wire(Normalize(v));
  }

  lemma {:induction false} WireItemsAppend(items: seq<Value>, item: Value)
    ensures WireItems(items + [item]) == WireItems(items) + Wire(item)
  {
    if items != [] {
      WireItemsAppend(items[1..], item);
      assert (items + [item])[1..] == items[1..] + [item];
    }
  }

  lemma {:induction false} WireEntriesAppend(entries: seq<Entry>, entry: Entry)
    ensures WireEntries(entries + [entry]) == WireEntries(entries) + WireEntry(entry)
  {
    if entries != [] {
      WireEntriesAppend(entries[1..], entry);
      assert (entries + [entry])[1..] == entries[1..] + [entry];
    }
  }

  lemma ItemsStep(start: seq<byte>, before: seq<byte>, after: seq<byte>, items: seq<Value>, i: nat)
    requires i < |items| && before == start + WireItems(items[..i]) && after == before + Wire(items[i])
    ensures after == start + WireItems(items[..i + 1])
  {
    WireItemsAppend(items[..i], items[i]);
    assert items[..i + 1] == items[..i] + [items[i]];
    AppendAssociates(start, WireItems(items[..i]), Wire(items[i]));
  }

  lemma EntriesStep(start: seq<byte>, before: seq<byte>, after: seq<byte>, entries: seq<Entry>, i: nat)
    requires i < |entries| && before == start + WireEntries(entries[..i]) && after == before + WireEntry(entries[i])
    ensures after == start + WireEntries(entries[..i + 1])
  {
    WireEntriesAppend(entries[..i], entries[i]);
    assert entries[..i + 1] == entries[..i] + [entries[i]];
    AppendAssociates(start, WireEntries(entries[..i]), WireEntry(entries[i]));
  }

  // Keys repeat somewhere exactly when two neighbours of the sorted entries share one.
  lemma AdjacentRepeats(entries: seq<Entry>)
    ensures var sorted := Sort(KeyLess, entries);
      Distinct(entries) <==> !NeighboursWithOneKey(sorted)
  {
    var sorted := Sort(KeyLess, entries);
    KeyOrder();
    SortPermutes(KeyLess, entries);
    if Distinct(entries) {
      SortStrictly(KeyLess, entries);
      assert forall j | 0 < j < |sorted| :: KeyLess(sorted[j - 1], sorted[j]);
    }
    if !NeighboursWithOneKey(sorted) {
      SortSorts(KeyLess, entries);
      forall i, j | 0 <= i < j < |sorted| ensures KeyLess(sorted[i], sorted[j]) {
        assert sorted[j - 1].key != sorted[j].key;
        assert !KeyLess(sorted[j], sorted[j - 1]);
        assert i < j - 1 ==> !KeyLess(sorted[j - 1], sorted[i]);
      }
      PairwiseUnderPermutation(KeyLess, sorted, entries);
      assert forall i, j | 0 <= i < j < |entries| :: KeyLess(entries[i], entries[j]) || KeyLess(entries[j], entries[i]);
    }
  }

  lemma SortedMember(entries: seq<Entry>, i: nat)
    requires i < |entries|
    ensures var e := Sort(KeyLess, entries)[i]; e in entries && (entries decreases to e)
  {
    SortMembers(entries);
    var e := Sort(KeyLess, entries)[i];
    assert e in entries;
    var at :| 0 <= at < |entries| && entries[at] == e;
  }

  // What writing the sorted entries one by one amounts to.
  lemma MapWritten(entries: seq<Entry>)
    ensures var sorted := Sort(KeyLess, entries);
      Wire(Normalize(Map(entries))) == Head(5, AsU64(|sorted|)) + WireEntries(NormalizeEntries(sorted))
  {
    SortThenNormalize(entries);
  }

  lemma MapEncodable(entries: seq<Entry>)
    ensures var sorted := Sort(KeyLess, entries);
      Encodable(Map(entries)) <==>
        !NeighboursWithOneKey(sorted) && forall j | 0 <= j < |sorted| :: EncodableEntry(sorted[j])
  {
    AdjacentRepeats(entries);
    SortedEncodable(entries);
    MapEncodableByEntry(entries);
  }

  lemma MapEncodableByEntry(entries: seq<Entry>)
    ensures Encodable(Map(entries)) <==>
      Distinct(entries) && forall j | 0 <= j < |entries| :: EncodableEntry(entries[j])
  {
    assert (forall j | 0 <= j < |entries| :: EncodableEntry(entries[j])) <==>
      (forall j | 0 <= j < |entries| :: Encodable(entries[j].value));
  }

  lemma SortedEncodable(entries: seq<Entry>)
    ensures (forall j | 0 <= j < |entries| :: EncodableEntry(Sort(KeyLess, entries)[j]))
       <==> (forall j | 0 <= j < |entries| :: EncodableEntry(entries[j]))
  {
    SortPermutes(KeyLess, entries);
    AllUnderPermutation(EncodableEntry, Sort(KeyLess, entries), entries);
  }

  predicate EncodableEntry(entry: Entry) {
    Encodable(entry.value)
  }

  predicate NeighboursWithOneKey(sorted: seq<Entry>) {
    exists j | 0 < j < |sorted| :: sorted[j - 1].key == sorted[j].key
  }

  // The writer's scan of neighbouring pairs.
  method HasNeighboursWithOneKey(sorted: seq<Entry>) returns (repeated: bool)
    ensures repeated <==> NeighboursWithOneKey(sorted)
  {
    repeated := false;
    for i := 0 to |sorted|
      invariant repeated <==> exists j | 0 < j < i :: sorted[j - 1].key == sorted[j].key
    {
      repeated := repeated || (i > 0 && sorted[i - 1].key == sorted[i].key);
    }
  }

  // Sorting first and normalizing the values afterwards, as the writer does, is the same map.
  lemma {:induction false} SortThenNormalize(entries: seq<Entry>)
    ensures NormalizeEntries(Sort(KeyLess, entries)) == Sort(KeyLess, NormalizeEntries(entries))
  {
    if entries != [] {
      var front, last := entries[..|entries| - 1], entries[|entries| - 1];
      SortThenNormalize(front);
      assert NormalizeEntries(entries)[..|entries| - 1] == NormalizeEntries(front);
      InsertThenNormalize(Sort(KeyLess, front), last);
    }
  }

  lemma {:induction false} InsertThenNormalize(entries: seq<Entry>, e: Entry)
    ensures NormalizeEntries(Insert(KeyLess, entries, e))
         == Insert(KeyLess, NormalizeEntries(entries), NormalizeEntry(e))
  {
    if entries != [] && KeyLess(e, entries[|entries| - 1]) {
      var front := entries[..|entries| - 1];
      InsertThenNormalize(front, e);
      assert NormalizeEntries(entries)[..|entries| - 1] == NormalizeEntries(front);
    }
  }
}
