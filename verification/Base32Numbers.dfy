// Base32 text as a number: the digits A to Z and 2 to 7 spell the bytes, filled up with zero bits.
module Base32Numbers {
  import opened Bytes
  import opened Bits
  import opened Modular
  import opened Base32

  // The value of a Base32 digit.
  predicate IsDigit(c: char, value: nat) {
    || (65 <= c as int <= 90 && value == c as int - 65)
    || (50 <= c as int <= 55 && value == c as int - 24)
  }

  lemma DigitsExactly(c: char)
    ensures IndexOf(c) < 32 ==> IsDigit(c, IndexOf(c))
    ensures forall value | IsDigit(c, value) :: value == IndexOf(c)
  {
  }

  // The number a text spells in base 32.
  function Number(s: string): nat {
    if s == "" then 0 else 32 * Number(s[..|s| - 1]) + IndexOf(s[|s| - 1])
  }

  lemma {:induction false} ValueAppends(a: seq<nat>, b: seq<nat>)
    ensures ValueOf(a + b) == ValueOf(a) * Pow2(|b|) + ValueOf(b)
  {
    if b == [] {
      assert a + b == a;
    } else {
      var front := b[..|b| - 1];
      ValueAppends(a, front);
      assert (a + b)[..|a + b| - 1] == a + front;
      Doubled(ValueOf(a), Pow2(|b| - 1));
    }
  }

  lemma Doubled(v: nat, p: nat)
    ensures 2 * (v * p) == v * (2 * p)
  {
  }

  lemma {:induction false} ZeroValue(k: nat)
    ensures ValueOf(Zeros(k)) == 0
  {
    if k > 0 {
      ZeroValue(k - 1);
      assert Zeros(k)[..k - 1] == Zeros(k - 1);
    }
  }

  lemma {:induction false} BitsAppend(bytes: seq<byte>, b: byte)
    ensures BitString(bytes + [b]) == BitString(bytes) + BitsOf(b, 8)
  {
    hide BitsOf;
    if bytes == [] {
      assert bytes + [b] == [b] && [b][1..] == [];
    } else {
      BitsAppend(bytes[1..], b);
      assert (bytes + [b])[1..] == bytes[1..] + [b];
    }
  }

  // The bits of a byte string spell it as a big-endian number.
  lemma {:induction false} BitsSpell(bytes: seq<byte>)
    ensures ValueOf(BitString(bytes)) == FromBigEndian(bytes)
  {
    hide BitsOf, ValueOf, Pow2;
    NoBits();
    if bytes != [] {
      var front, last := bytes[..|bytes| - 1], bytes[|bytes| - 1];
      BitsSpell(front);
      BitsAppend(front, last);
      assert bytes == front + [last];
      ValueAppends(BitString(front), BitsOf(last, 8));
      ValueOfBits(last, 8);
      SmallPowers();
    }
  }

  lemma NoBits()
    ensures ValueOf([]) == 0
  {
  }

  lemma {:induction false} UngroupedAppends(s: string, c: char)
    ensures Ungrouped(s + [c]) == Ungrouped(s) + BitsOf(IndexOf(c), 5)
  {
    hide BitsOf, IndexOf;
    if s == "" {
      assert s + [c] == [c] && [c][1..] == "";
    } else {
      UngroupedAppends(s[1..], c);
      assert (s + [c])[1..] == s[1..] + [c];
    }
  }

  lemma {:induction false} UngroupedSpells(s: string)
    requires forall i | 0 <= i < |s| :: IndexOf(s[i]) < 32
    ensures ValueOf(Ungrouped(s)) == Number(s) && |Ungrouped(s)| == 5 * |s|
  {
    hide BitsOf, ValueOf, IndexOf, Pow2;
    NoBits();
    if s != "" {
      var front, last := s[..|s| - 1], s[|s| - 1];
      UngroupedSpells(front);
      UngroupedAppends(front, last);
      assert s == front + [last];
      ValueAppends(Ungrouped(front), BitsOf(IndexOf(last), 5));
      ValueOfBits(IndexOf(last), 5);
      SmallPowers();
      PowSmall(IndexOf(last), 5);
    }
  }

  lemma EncodedDigits(bytes: seq<byte>)
    ensures forall i | 0 <= i < |Encoded(bytes)| :: IndexOf(Encoded(bytes)[i]) < 32
  {
    hide Groups, BitString, SymbolOf, IndexOf;
    var groups := Groups(BitString(bytes));
    forall i | 0 <= i < |Encoded(bytes)| ensures IndexOf(Encoded(bytes)[i]) < 32 {
      SymbolIndex(groups[i] % 32);
    }
  }

  // The text is of digits, the least number of them that holds all bits, and spells the bytes
  // followed by fewer than five zero bits.
  lemma EncodedNumber(bytes: seq<byte>) returns (pad: nat)
    ensures pad < 5 && 5 * |Encoded(bytes)| == 8 * |bytes| + pad
    ensures Number(Encoded(bytes)) == FromBigEndian(bytes) * Pow2(pad)
    ensures forall i | 0 <= i < |Encoded(bytes)| :: IsDigit(Encoded(bytes)[i], IndexOf(Encoded(bytes)[i]))
  {
    hide Groups, Ungrouped, ValueOf, BitsOf, Symbols, IndexOf, BitString, FromBigEndian, Pow2, Number, IsDigit;
    var bits, text := BitString(bytes), Encoded(bytes);
    GroupsUndone(bits);
    pad :| 0 <= pad < 5 && Ungrouped(Symbols(Groups(bits))) == bits + Zeros(pad);
    EncodedDigits(bytes);
    UngroupedSpells(text);
    ValueAppends(bits, Zeros(pad));
    ZeroValue(pad);
    BitsSpell(bytes);
    forall i | 0 <= i < |text| ensures IsDigit(text[i], IndexOf(text[i])) {
      DigitsExactly(text[i]);
    }
  }
}
