// Base32 of addresses: the shifting loop against the five-bit groups of section 6 of RFC 4648,
// without padding characters.
module Base32 {
  import opened Bytes
  import opened Bits
  import opened Modular

  const ALPHABET := "ABCDEFGHIJKLMNOPQRSTUVWXYZ234567"

  // The low k binary digits of n, most significant first.
  function BitsOf(n: nat, k: nat): (r: seq<nat>)
    ensures |r| == k && forall i | 0 <= i < k :: r[i] <= 1
  {
    if k == 0 then [] else BitsOf(n / 2, k - 1) + [n % 2]
  }

  function ValueOf(bits: seq<nat>): nat {
    if bits == [] then 0 else 2 * ValueOf(bits[..|bits| - 1]) + bits[|bits| - 1]
  }

  function Zeros(k: nat): (r: seq<nat>)
    ensures |r| == k && forall i | 0 <= i < k :: r[i] == 0
  {
    seq(k, i => 0)
  }

  // The input as one string of bits, most significant first.
  function BitString(bytes: seq<byte>): (r: seq<nat>)
    ensures |r| == 8 * |bytes| && forall i | 0 <= i < |r| :: r[i] <= 1
  {
    if bytes == [] then [] else BitsOf(bytes[0], 8) + BitString(bytes[1..])
  }

  // Its groups of five, the last one filled up with zero bits.
  function Groups(bits: seq<nat>): (r: seq<nat>)
    ensures |r| == (|bits| + 4) / 5
  {
    if bits == [] then []
    else if |bits| < 5 then [ValueOf(bits + Zeros(5 - |bits|))]
    else [ValueOf(bits[..5])] + Groups(bits[5..])
  }

  function SymbolOf(group: nat): char
    requires group < 32
  {
    ALPHABET[group]
  }

  function Symbols(groups: seq<nat>): (r: string)
    ensures |r| == |groups|
    ensures forall i | 0 <= i < |groups| :: r[i] == SymbolOf(groups[i] % 32)
  {
    seq(|groups|, i requires 0 <= i < |groups| => SymbolOf(groups[i] % 32))
  }

  function Encoded(bytes: seq<byte>): string {
    Symbols(Groups(BitString(bytes)))
  }

  // ----- bits

  lemma {:induction false} BitsSplit(n: nat, j: nat, k: nat)
    ensures BitsOf(n, j + k) == BitsOf(Shr(n, k), j) + BitsOf(n, k)
  {
    if k == 0 {
      assert BitsOf(n, j) + [] == BitsOf(n, j);
    } else {
      BitsSplit(n / 2, j, k - 1);
      assert BitsOf(Shr(n, k), j) + BitsOf(n / 2, k - 1) + [n % 2] == BitsOf(Shr(n, k), j) + (BitsOf(n / 2, k - 1) + [n % 2]);
    }
  }

  lemma {:induction false} ValueOfBits(n: nat, k: nat)
    ensures ValueOf(BitsOf(n, k)) == n % Pow2(k)
  {
    if k > 0 {
      ValueOfBits(n / 2, k - 1);
      assert BitsOf(n, k)[..k - 1] == BitsOf(n / 2, k - 1);
      ModHalves(n, Pow2(k - 1));
    }
  }

  lemma {:induction false} BitsOfValue(bits: seq<nat>)
    requires forall i | 0 <= i < |bits| :: bits[i] <= 1
    ensures BitsOf(ValueOf(bits), |bits|) == bits && ValueOf(bits) < Pow2(|bits|)
  {
    if bits != [] {
      BitsOfValue(bits[..|bits| - 1]);
      assert bits == bits[..|bits| - 1] + [bits[|bits| - 1]];
    }
  }

  lemma {:induction false} BitsOfLow(n: nat, k: nat)
    ensures BitsOf(n % Pow2(k), k) == BitsOf(n, k)
  {
    if k > 0 {
      BitsOfLow(n / 2, k - 1);
      ModHalves(n, Pow2(k - 1));
    }
  }

  // `(buffer << 8) | byte`.
  lemma Appended(buffer: nat, bits: nat, b: byte)
    ensures Or(Shl(buffer, 8), b) == buffer * 256 + b
    ensures BitsOf(buffer * 256 + b, bits + 8) == BitsOf(buffer, bits) + BitsOf(b, 8)
  {
    hide BitsOf, Or, Shr, Pow2, Shl;
    SmallPowers();
    ShlByte(buffer);
    OrAppends(buffer, b, 8);
    var n := buffer * 256 + b;
    BitsSplit(n, bits, 8);
    ShrDivides(n, 8);
    BitsOfLow(n, 8);
    BitsOfLow(b, 8);
  }

  // The symbols still to come: from the low bits of the buffer and the bytes not read yet.
  ghost function Coming(buffer: nat, bits: nat, rest: seq<byte>): seq<nat> {
    Groups(BitsOf(buffer, bits) + BitString(rest))
  }

  lemma TakeByte(buffer: nat, bits: nat, bytes: seq<byte>, i: nat)
    requires i < |bytes| && bits < 5 && buffer < Pow2(bits)
    ensures Coming(buffer, bits, bytes[i..]) == Coming(Or(Shl(buffer, 8), bytes[i]), bits + 8, bytes[i + 1..])
    // The accumulator never holds more than 12 bits.
    ensures Or(Shl(buffer, 8), bytes[i]) < 4096
  {
    hide BitsOf, Or, Shl, Groups, Pow2;
    SmallPowers();
    Appended(buffer, bits, bytes[i]);
    assert bytes[i..][0] == bytes[i] && bytes[i..][1..] == bytes[i + 1..];
    var rest := BitString(bytes[i + 1..]);
    assert BitsOf(buffer, bits) + (BitsOf(bytes[i], 8) + rest) == BitsOf(buffer, bits) + BitsOf(bytes[i], 8) + rest;
  }

  // One symbol taken from the top of the buffer.
  lemma Popped(buffer: nat, bits: nat, rest: seq<byte>)
    ensures var group := And(Shr(buffer, bits), 31);
      group < 32 && Coming(buffer, bits + 5, rest) == [group] + Coming(buffer, bits, rest)
  {
    hide BitsOf, ValueOf, And, Shr, Pow2, BitString;
    SmallPowers();
    AndKeepsLow(Shr(buffer, bits), 5);
    BitsSplit(buffer, 5, bits);
    ValueOfBits(Shr(buffer, bits), 5);
    var all := BitsOf(buffer, bits + 5) + BitString(rest);
    assert all[..5] == BitsOf(Shr(buffer, bits), 5);
    assert all[5..] == BitsOf(buffer, bits) + BitString(rest);
  }

  // The bits that have been used are cleared.
  lemma Cleared(buffer: nat, bits: nat, rest: seq<byte>)
    ensures var low := if bits == 0 then 0 else And(buffer, Pow2(bits) - 1);
      low < Pow2(bits) && Coming(low, bits, rest) == Coming(buffer, bits, rest)
  {
    hide And, Groups, BitString;
    BitsOfLow(buffer, bits);
    AndKeepsLow(buffer, bits);
    assert BitsOf(buffer, 0) == BitsOf(0, 0);
  }

  // The last symbol, when bits are left over.
  lemma Flushed(buffer: nat, bits: nat)
    requires 0 < bits < 5 && buffer < Pow2(bits)
    ensures var group := And(Shl(buffer, 5 - bits), 31);
      group < 32 && Coming(buffer, bits, []) == [group]
  {
    hide BitsOf, ValueOf, And, Shl, Pow2;
    SmallPowers();
    assert BitsOf(buffer, bits) + BitString([]) == BitsOf(buffer, bits);
    AndKeepsLow(Shl(buffer, 5 - bits), 5);
    ValueOfBits(buffer, bits);
    ValueOfZeros(BitsOf(buffer, bits), 5 - bits);
    BitsOfValue(BitsOf(buffer, bits) + Zeros(5 - bits));
    PowSmall(buffer, bits);
  }

  lemma {:induction false} ValueOfZeros(bits: seq<nat>, k: nat)
    ensures ValueOf(bits + Zeros(k)) == Shl(ValueOf(bits), k)
  {
    if k == 0 {
      assert bits + Zeros(0) == bits;
    } else {
      ValueOfZeros(bits, k - 1);
      assert (bits + Zeros(k))[..|bits| + k - 1] == bits + Zeros(k - 1);
    }
  }

  lemma PowSmall(buffer: nat, bits: nat)
    requires buffer < Pow2(bits)
    ensures buffer % Pow2(bits) == buffer
  {
    ModUnique(buffer, Pow2(bits), 0, buffer);
  }

  // ----- the loop

  method Base32Encode(bytes: seq<byte>) returns (output: string)
    ensures output == Encoded(bytes)
  {
    hide And, Or, Shr, Shl, Pow2, Symbols, SymbolOf, Coming, Groups, BitString;
    output := "";
    ghost var groups: seq<nat> := [];
    var buffer: nat := 0;
    var bits := 0;
    Begins(bytes);
    for i := 0 to |bytes|
      invariant 0 <= bits < 5 && buffer < Pow2(bits) && output == Symbols(groups)
      invariant groups + Coming(buffer, bits, bytes[i..]) == Groups(BitString(bytes))
    {
      TakeByte(buffer, bits, bytes, i);
      buffer := Or(Shl(buffer, 8), bytes[i]);
      bits := bits + 8;
      while bits >= 5
        invariant 0 <= bits < 13 && output == Symbols(groups)
        invariant groups + Coming(buffer, bits, bytes[i + 1..]) == Groups(BitString(bytes))
      {
        bits := bits - 5;
        var group := And(Shr(buffer, bits), 31);
        Popped(buffer, bits, bytes[i + 1..]);
        Push(groups, group, Coming(buffer, bits, bytes[i + 1..]));
        groups := groups + [group];
        output := output + [SymbolOf(group)];
      }
      Cleared(buffer, bits, bytes[i + 1..]);
      buffer := if bits == 0 then 0 else And(buffer, Pow2(bits) - 1);
    }
    assert bytes[|bytes|..] == [];
    if bits > 0 {
      var group := And(Shl(buffer, 5 - bits), 31);
      Flushed(buffer, bits);
      Push(groups, group, []);
      output := output + [SymbolOf(group)];
    } else {
      NothingComing(buffer);
    }
  }

  lemma Begins(bytes: seq<byte>)
    ensures Symbols([]) == "" && Pow2(0) == 1 && [] + Coming(0, 0, bytes[0..]) == Groups(BitString(bytes))
  {
    assert BitsOf(0, 0) + BitString(bytes[0..]) == BitString(bytes);
  }

  lemma NothingComing(buffer: nat)
    ensures Coming(buffer, 0, []) == []
  {
  }

  lemma Push(groups: seq<nat>, group: nat, rest: seq<nat>)
    requires group < 32
    ensures groups + ([group] + rest) == groups + [group] + rest
    ensures Symbols(groups + [group]) == Symbols(groups) + [SymbolOf(group)]
  {
    hide SymbolOf;
  }

  // ----- decoding

  function IndexOf(c: char): nat {
    if 'A' <= c <= 'Z' then (c as int) - ('A' as int)
    else if '2' <= c <= '7' then 26 + (c as int) - ('2' as int)
    else 32
  }

  function Ungrouped(s: string): seq<nat> {
    if s == "" then [] else BitsOf(IndexOf(s[0]), 5) + Ungrouped(s[1..])
  }

  function ToBytes(bits: seq<nat>): seq<nat> {
    if |bits| < 8 then [] else [ValueOf(bits[..8])] + ToBytes(bits[8..])
  }

  // The groups in order, without the bits that filled the last one up.
  function Decoded(s: string): seq<nat> {
    ToBytes(Ungrouped(s))
  }

  lemma SymbolIndex(group: nat)
    requires group < 32
    ensures IndexOf(SymbolOf(group)) == group
  {
  }

  lemma {:induction false} GroupsUndone(bits: seq<nat>)
    requires forall i | 0 <= i < |bits| :: bits[i] <= 1
    ensures exists pad | 0 <= pad < 5 :: Ungrouped(Symbols(Groups(bits))) == bits + Zeros(pad)
  {
    hide BitsOf, ValueOf, IndexOf, Symbols, Ungrouped;
    NoGroups();
    if bits == [] {
      assert Ungrouped(Symbols(Groups(bits))) == bits + Zeros(0);
    } else if |bits| < 5 {
      var full := bits + Zeros(5 - |bits|);
      FirstGroup(full, []);
      assert Groups(bits) == [ValueOf(full)] + [] && full + [] == full;
      assert Ungrouped(Symbols(Groups(bits))) == bits + Zeros(5 - |bits|);
    } else {
      GroupsUndone(bits[5..]);
      var pad :| 0 <= pad < 5 && Ungrouped(Symbols(Groups(bits[5..]))) == bits[5..] + Zeros(pad);
      FirstGroup(bits[..5], Groups(bits[5..]));
      assert bits[..5] + (bits[5..] + Zeros(pad)) == bits + Zeros(pad);
    }
  }

  lemma NoGroups()
    ensures Symbols([]) == "" && Ungrouped("") == []
  {
  }

  lemma FirstGroup(five: seq<nat>, groups: seq<nat>)
    requires |five| == 5 && forall i | 0 <= i < 5 :: five[i] <= 1
    ensures Ungrouped(Symbols([ValueOf(five)] + groups)) == five + Ungrouped(Symbols(groups))
  {
    hide BitsOf, ValueOf, IndexOf, Symbols, SymbolOf;
    BitsOfValue(five);
    assert Pow2(5) == 32;
    SymbolIndex(ValueOf(five));
    SymbolsFirst(ValueOf(five), groups);
    var first, rest := [SymbolOf(ValueOf(five))], Symbols(groups);
    assert (first + rest)[0] == first[0] && (first + rest)[1..] == rest;
  }

  lemma SymbolsFirst(group: nat, groups: seq<nat>)
    requires group < 32
    ensures Symbols([group] + groups) == [SymbolOf(group)] + Symbols(groups)
  {
    hide SymbolOf;
  }

  lemma {:induction false} BytesUndone(bytes: seq<byte>, pad: nat)
    requires pad < 5
    ensures ToBytes(BitString(bytes) + Zeros(pad)) == bytes
  {
    hide BitsOf, ValueOf;
    if bytes != [] {
      BytesUndone(bytes[1..], pad);
      var all := BitString(bytes) + Zeros(pad);
      ValueOfBits(bytes[0], 8);
      assert Pow2(8) == 256;
      assert all[..8] == BitsOf(bytes[0], 8) && all[8..] == BitString(bytes[1..]) + Zeros(pad);
    }
  }

  // Every byte string is recovered, and the length is that of section 6 without padding.
  lemma Base32RoundTrip(bytes: seq<byte>)
    ensures Decoded(Encoded(bytes)) == bytes
    ensures |Encoded(bytes)| == (8 * |bytes| + 4) / 5
  {
    GroupsUndone(BitString(bytes));
    var pad :| 0 <= pad < 5 && Ungrouped(Symbols(Groups(BitString(bytes)))) == BitString(bytes) + Zeros(pad);
    BytesUndone(bytes, pad);
  }
}
