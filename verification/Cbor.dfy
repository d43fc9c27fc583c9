// The deterministic CBOR subset of the Wallet Store (section 4.2.1 of RFC 8949):
// its values, their wire bytes, and the parser's grammar as a function on suffixes.
module Cbor {
  import opened Wrappers
  import opened Bytes
  import opened Sorting

  datatype Entry = Entry(key: u64, value: Value)

  datatype Value =
    | UInt(n: u64)
    | Negative(n: u64)
    | Bytes(bytes: seq<byte>)
    | Text(text: Text)
    | Array(items: seq<Value>)
    | Map(entries: seq<Entry>)
    | Tag(tag: u64, inner: Value)
    | Simple(simple: byte)
    | Bool(flag: bool)
    | Null

  datatype CborError = CborError

  datatype Limits = Limits(maxInput: u64, maxString: u64, maxCollection: u64, maxDepth: u64)

  const WALLET_STORE_LIMITS := Limits(16 * 1024 * 1024, 1024 * 1024, 256, 32)
  const PROFILE_PAYLOAD_LIMITS := Limits(1024 * 1024, 1024 * 1024, 256, 32)

  // ----- the wire form

  // A major type with its shortest argument.
  function Head(major: nat, n: u64): (s: seq<byte>)
    requires major < 8
    ensures |s| >= 1
  {
    var prefix := major * 32;
    if n <= 23 then [prefix + n]
    else if n <= 0xff then [prefix + 24, n]
    else if n <= 0xffff then [prefix + 25] + ToBigEndian(n, 2)
    else if n <= 0xffff_ffff then [prefix + 26] + ToBigEndian(n, 4)
    else [prefix + 27] + ToBigEndian(n, 8)
  }

  function WireSimple(s: byte): seq<byte> {
    if s < 32 then [0xe0 + s] else [0xf8, s]
  }

  // The bytes of a value, its map entries in the order held.
  function Wire(v: Value): (s: seq<byte>)
    ensures |s| >= 1
  {
    match v
    case UInt(n) => Head(0, n)
    case Negative(n) => Head(1, n)
    case Bytes(b) => Head(2, AsU64(|b|)) + b
    case Text(t) => Head(3, AsU64(|t|)) + t
    case Array(items) => Head(4, AsU64(|items|)) + WireItems(items)
    case Map(entries) => Head(5, AsU64(|entries|)) + WireEntries(entries)
    case Tag(tag, inner) => Head(6, tag) + Wire(inner)
    case Simple(s) => WireSimple(s)
    case Bool(flag) => [if flag then 0xf5 else 0xf4]
    case Null => [0xf6]
  }

  function WireItems(items: seq<Value>): (s: seq<byte>)
    ensures |s| >= |items|
  {
    if items == [] then [] else Wire(items[0]) + WireItems(items[1..])
  }

  function WireEntries(entries: seq<Entry>): (s: seq<byte>)
    ensures |s| >= 2 * |entries|
  {
    if entries == [] then [] else WireEntry(entries[0]) + WireEntries(entries[1..])
  }

  function WireEntry(entry: Entry): (s: seq<byte>)
    ensures |s| >= 2
  {
    Head(0, entry.key) + Wire(entry.value)
  }

  // ----- canonical values and resource limits

  predicate Ascending(entries: seq<Entry>) {
    forall i, j | 0 <= i < j < |entries| :: entries[i].key < entries[j].key
  }

  predicate Distinct(entries: seq<Entry>) {
    forall i, j | 0 <= i < j < |entries| :: entries[i].key != entries[j].key
  }

  // A generic simple value may not take the wire form of a Bool or Null, nor a reserved one.
  predicate WritableSimple(s: byte) {
    s < 20 || s == 23 || s >= 32
  }

  ghost predicate Canonical(v: Value) {
    match v
    case Array(items) => forall i | 0 <= i < |items| :: Canonical(items[i])
    case Map(entries) => Ascending(entries) && forall i | 0 <= i < |entries| :: Canonical(entries[i].value)
    case Tag(_, inner) => Canonical(inner)
    case Simple(s) => WritableSimple(s)
    case _ => true
  }

  // What the encoder accepts: distinct keys in every map and no reserved simple value.
  predicate Encodable(v: Value) {
    match v
    case Array(items) => forall i | 0 <= i < |items| :: Encodable(items[i])
    case Map(entries) => Distinct(entries) && forall i | 0 <= i < |entries| :: Encodable(entries[i].value)
    case Tag(_, inner) => Encodable(inner)
    case Simple(s) => WritableSimple(s)
    case _ => true
  }

  // `v` nests at most `budget` deep and stays within the string and collection limits.
  ghost predicate Within(v: Value, limits: Limits, budget: nat) {
    budget > 0 &&
    match v
    case Bytes(b) => |b| <= limits.maxString
    case Text(t) => |t| <= limits.maxString
    case Array(items) =>
      && |items| <= limits.maxCollection
      && forall i | 0 <= i < |items| :: Within(items[i], limits, budget - 1)
    case Map(entries) =>
      && |entries| <= limits.maxCollection
      && forall i | 0 <= i < |entries| :: Within(entries[i].value, limits, budget - 1)
    case Tag(_, inner) => Within(inner, limits, budget - 1)
    case _ => true
  }

  // ----- the encoder

  predicate KeyLess(a: Entry, b: Entry) {
    a.key < b.key
  }

  // The value with every map in key order.
  function Normalize(v: Value): Value {
    match v
    case Array(items) => Array(NormalizeItems(items))
    case Map(entries) => Map(Sort(KeyLess, NormalizeEntries(entries)))
    case Tag(tag, inner) => Tag(tag, Normalize(inner))
    case _ => v
  }

  function NormalizeItems(items: seq<Value>): (r: seq<Value>)
    ensures |r| == |items|
    ensures forall i | 0 <= i < |items| :: r[i] == Normalize(items[i])
  {
    if items == [] then [] else [Normalize(items[0])] + NormalizeItems(items[1..])
  }

  function NormalizeEntries(entries: seq<Entry>): (r: seq<Entry>)
    ensures |r| == |entries|
    ensures forall i | 0 <= i < |entries| :: r[i] == NormalizeEntry(entries[i])
  {
    if entries == [] then [] else [NormalizeEntry(entries[0])] + NormalizeEntries(entries[1..])
  }

  function NormalizeEntry(entry: Entry): Entry {
    Entry(entry.key, Normalize(entry.value))
  }

  // `encode`: the wire form in key order, or an error.
  function Encode(v: Value): Result<seq<byte>, CborError> {
    if Encodable(v) then Ok(Wire(Normalize(v))) else Err(CborError)
  }

  // ----- the parser's grammar; each function returns what follows the item it read

  type Parsed<T> = Result<(T, seq<byte>), CborError>

  function Take(input: seq<byte>, count: nat): Parsed<seq<byte>> {
    if count > |input| then Err(CborError) else Ok((input[..count], input[count..]))
  }

  function ParseArgument(input: seq<byte>, additional: nat): Parsed<u64>
    requires additional < 32
  {
    if additional <= 23 then Ok((additional, input))
    else if additional == 24 then ParseWide(input, 1, 24)
    else if additional == 25 then ParseWide(input, 2, 0x100)
    else if additional == 26 then ParseWide(input, 4, 0x1_0000)
    else if additional == 27 then ParseWide(input, 8, 0x1_0000_0000)
    else Err(CborError)
  }

  function ReadU64(bytes: seq<byte>): (n: u64)
    requires |bytes| <= 8
    ensures n == FromBigEndian(bytes)
  {
    FromBigEndianBound(bytes);
    Pow256AtMost8(|bytes|);
    FromBigEndian(bytes)
  }

  function ParseWide(input: seq<byte>, width: nat, minimum: nat): Parsed<u64>
    requires width <= 8
  {
    var (bytes, rest) :- Take(input, width);
    var value := ReadU64(bytes);
    if value < minimum then Err(CborError) else Ok((value, rest))
  }

  function ParseString(input: seq<byte>, additional: nat, limits: Limits): Parsed<seq<byte>>
    requires additional < 32
  {
    var (length, rest) :- ParseArgument(input, additional);
    if length > limits.maxString then Err(CborError) else Take(rest, length)
  }

  function ParseCollectionLength(input: seq<byte>, additional: nat, limits: Limits, isMap: bool): Parsed<u64>
    requires additional < 32
  {
    var (length, rest) :- ParseArgument(input, additional);
    var capacity := if isMap then |rest| / 2 else |rest|;
    if length > limits.maxCollection || length > capacity then Err(CborError) else Ok((length, rest))
  }

  function ParseSimple(input: seq<byte>, additional: nat): Parsed<Value>
    requires additional < 32
  {
    if additional <= 19 || additional == 23 then Ok((Simple(additional), input))
    else if additional == 20 then Ok((Bool(false), input))
    else if additional == 21 then Ok((Bool(true), input))
    else if additional == 22 then Ok((Null, input))
    else if additional == 24 then
      var (bytes, rest) :- Take(input, 1);
      if bytes[0] < 32 then Err(CborError) else Ok((Simple(bytes[0]), rest))
    else Err(CborError)
  }

  function ParseValue(input: seq<byte>, limits: Limits, budget: nat): Parsed<Value>
    decreases budget, 0
  {
    if budget == 0 then Err(CborError) else
    var (initial, rest) :- Take(input, 1);
    ParseBody(rest, initial[0] / 32, initial[0] % 32, limits, budget - 1)
  }

  // What follows an initial byte; `budget` is the depth left for its children.
  function ParseBody(input: seq<byte>, major: nat, additional: nat, limits: Limits, budget: nat): Parsed<Value>
    requires major < 8 && additional < 32
    decreases budget, 2
  {
    match major
    case 0 => var (n, rest) :- ParseArgument(input, additional); Ok((UInt(n), rest))
    case 1 => var (n, rest) :- ParseArgument(input, additional); Ok((Negative(n), rest))
    case 2 => var (b, rest) :- ParseString(input, additional, limits); Ok((Bytes(b), rest))
    case 3 =>
      var (b, rest) :- ParseString(input, additional, limits);
      if IsUtf8(b) then Ok((Text(b), rest)) else Err(CborError)
    case 4 =>
      var (length, rest) :- ParseCollectionLength(input, additional, limits, false);
      var (items, rest) :- ParseItems(rest, length, limits, budget);
      Ok((Array(items), rest))
    case 5 =>
      var (length, rest) :- ParseCollectionLength(input, additional, limits, true);
      var (entries, rest) :- ParseEntries(rest, length, None, limits, budget);
      Ok((Map(entries), rest))
    case 6 =>
      var (tag, rest) :- ParseArgument(input, additional);
      var (inner, rest) :- ParseValue(rest, limits, budget);
      Ok((Tag(tag, inner), rest))
    case _ => ParseSimple(input, additional)
  }

  function ParseItems(input: seq<byte>, count: nat, limits: Limits, budget: nat): Parsed<seq<Value>>
    decreases budget, 1, count
  {
    if count == 0 then Ok(([], input)) else
    var (item, rest) :- ParseValue(input, limits, budget);
    var (items, rest) :- ParseItems(rest, count - 1, limits, budget);
    Ok(([item] + items, rest))
  }

  function ParseEntries(input: seq<byte>, count: nat, previous: Option<u64>, limits: Limits, budget: nat)
    : Parsed<seq<Entry>>
    decreases budget, 1, count
  {
    if count == 0 then Ok(([], input)) else
    var (key, rest) :- ParseKey(input, previous, limits, budget);
    var (value, rest) :- ParseValue(rest, limits, budget);
    var (entries, rest) :- ParseEntries(rest, count - 1, Some(key), limits, budget);
    Ok(([Entry(key, value)] + entries, rest))
  }

  function ParseKey(input: seq<byte>, previous: Option<u64>, limits: Limits, budget: nat): Parsed<u64>
    decreases budget, 1, 0
  {
    var (key, rest) :- ParseValue(input, limits, budget);
    if !key.UInt? || (previous.Some? && key.n <= previous.value) then Err(CborError) else Ok((key.n, rest))
  }

  // `decode_with_limits`: one root value and no trailing bytes.
  function Decode(input: seq<byte>, limits: Limits): Result<Value, CborError> {
    if |input| > limits.maxInput then Err(CborError) else
    var (value, rest) :- ParseValue(input, limits, limits.maxDepth);
    if rest != [] then Err(CborError) else Ok(value)
  }

  lemma Pow256AtMost8(k: nat)
    requires k <= 8
    ensures Pow256(k) <= 0x1_0000_0000_0000_0000
  {
    assert Pow256(1) == 0x100 && Pow256(2) == 0x1_0000;
    assert Pow256(3) == 0x100_0000 && Pow256(4) == 0x1_0000_0000;
    assert Pow256(5) == 0x100_0000_0000 && Pow256(6) == 0x1_0000_0000_0000;
    assert Pow256(7) == 0x100_0000_0000_0000 && Pow256(8) == 0x1_0000_0000_0000_0000;
  }
}
