// Arithmetic modulo the order of the Ed25519 scalar group, on little-endian byte arrays with a
// fixed sequence of operations.
module Scalar {
  import opened Bytes
  import opened Bits
  import opened Modular

  const L: nat := 0x1000000000000000_0000000000000000_14def9dea2f79cd6_5812631a5cf5d3ed

  const ORDER: Bytes32 := [
    0xed, 0xd3, 0xf5, 0x5c, 0x1a, 0x63, 0x12, 0x58, 0xd6, 0x9c, 0xf7, 0xa2, 0xde, 0xf9, 0xde, 0x14,
    0x00, 0x00, 0x00, 0x00, 0x00, 0x00, 0x00, 0x00, 0x00, 0x00, 0x00, 0x00, 0x00, 0x00, 0x00, 0x10]

  // Little-endian value.
  function Le(s: seq<byte>): nat {
    if s == [] then 0 else Le(s[..|s| - 1]) + s[|s| - 1] * Pow256(|s| - 1)
  }

  lemma {:induction false} LeBound(s: seq<byte>)
    ensures Le(s) < Pow256(|s|)
  {
    if s != [] {
      LeBound(s[..|s| - 1]);
      MulStep(Pow256(|s| - 1), s[|s| - 1], 256);
    }
  }

  lemma LePush(s: seq<byte>, b: byte)
    ensures Le(s + [b]) == Le(s) + b * Pow256(|s|)
  {
    assert (s + [b])[..|s|] == s;
  }

  lemma {:induction false} Pow256Sum(a: nat, b: nat)
    ensures Pow256(a + b) == Pow256(a) * Pow256(b)
  {
    if a > 0 {
      Pow256Sum(a - 1, b);
      assert 256 * (Pow256(a - 1) * Pow256(b)) == (256 * Pow256(a - 1)) * Pow256(b);
    }
  }

  lemma Pow256At32()
    ensures Pow256(8) == 0x1_0000000000000000
    ensures Pow256(16) == 0x1_0000000000000000_0000000000000000
    ensures Pow256(32) == 0x1_0000000000000000_0000000000000000_0000000000000000_0000000000000000
  {
    assert Pow256(4) == 0x1_00000000;
    Pow256Sum(4, 4);
    Pow256Sum(8, 8);
    Pow256Sum(16, 16);
  }

  lemma {:induction false} LeConcat(a: seq<byte>, b: seq<byte>)
    ensures Le(a + b) == Le(a) + Pow256(|a|) * Le(b)
  {
    if b == [] {
      assert a + b == a;
    } else {
      var front, last := b[..|b| - 1], b[|b| - 1];
      LeConcat(a, front);
      assert a + b == (a + front) + [last];
      LePush(a + front, last);
      Pow256Sum(|a|, |front|);
      Distribute(Pow256(|a|), Le(front), last, Pow256(|front|));
    }
  }

  lemma Distribute(p: nat, x: nat, b: nat, q: nat)
    ensures p * (x + b * q) == p * x + b * (p * q)
  {
    assert p * (b * q) == b * (p * q);
  }

  lemma Le4(a: byte, b: byte, c: byte, d: byte)
    ensures Le([a, b, c, d]) == a + b * 0x100 + c * 0x10000 + d * 0x1000000
  {
    LePush([], a);
    LePush([a], b);
    LePush([a, b], c);
    LePush([a, b, c], d);
    assert [] + [a] == [a] && [a] + [b] == [a, b] && [a, b] + [c] == [a, b, c] && [a, b, c] + [d] == [a, b, c, d];
  }

  lemma LeOfWords(a: seq<byte>, b: seq<byte>)
    requires |a| == 4 && |b| == 4
    ensures Le(a + b) == Le(a) + 0x1_00000000 * Le(b)
  {
    LeConcat(a, b);
    assert Pow256(4) == 0x1_00000000;
  }

  lemma OrderLow()
    ensures Le(ORDER[..16]) == 0x14def9dea2f79cd6_5812631a5cf5d3ed
  {
    hide Le, Pow256;
    Pow256At32();
    Le4(0xed, 0xd3, 0xf5, 0x5c);
    Le4(0x1a, 0x63, 0x12, 0x58);
    Le4(0xd6, 0x9c, 0xf7, 0xa2);
    Le4(0xde, 0xf9, 0xde, 0x14);
    LeOfWords([0xed, 0xd3, 0xf5, 0x5c], [0x1a, 0x63, 0x12, 0x58]);
    LeOfWords([0xd6, 0x9c, 0xf7, 0xa2], [0xde, 0xf9, 0xde, 0x14]);
    var low, high := [0xed, 0xd3, 0xf5, 0x5c] + [0x1a, 0x63, 0x12, 0x58], [0xd6, 0x9c, 0xf7, 0xa2] + [0xde, 0xf9, 0xde, 0x14];
    LeConcat(low, high);
    assert ORDER[..16] == low + high;
  }

  lemma OrderHigh()
    ensures Le(ORDER[16..]) == 0x1000000000000000_0000000000000000
  {
    hide Le, Pow256;
    Pow256At32();
    Le4(0, 0, 0, 0);
    Le4(0, 0, 0, 0x10);
    LeOfWords([0, 0, 0, 0], [0, 0, 0, 0]);
    LeOfWords([0, 0, 0, 0], [0, 0, 0, 0x10]);
    var low, high := [0, 0, 0, 0] + [0, 0, 0, 0], [0, 0, 0, 0] + [0, 0, 0, 0x10];
    LeConcat(low, high);
    assert ORDER[16..] == low + high;
  }

  // The constant is l = 2^252 + 27742317777372353535851937790883648493, so it exceeds 2^252.
  lemma OrderIsL()
    ensures Le(ORDER) == L
    ensures L ==
      0x1000000000000000_0000000000000000_0000000000000000_0000000000000000 + 27742317777372353535851937790883648493
  {
    Pow256At32();
    OrderLow();
    OrderHigh();
    LeConcat(ORDER[..16], ORDER[16..]);
    assert ORDER == ORDER[..16] + ORDER[16..];
  }

  // ----- machine steps

  function OverflowingAdd(a: byte, b: byte): (byte, bool) {
    ((a + b) % 256, a + b >= 256)
  }

  function OverflowingSub(a: byte, b: byte): (byte, bool) {
    ((a - b) % 256, a < b)
  }

  function WrappingSub(a: byte, b: byte): byte {
    (a - b) % 256
  }

  function AsByte(b: bool): byte {
    if b then 1 else 0
  }

  lemma AddStep(a: byte, b: byte, carry: byte)
    requires carry <= 1
    ensures var (v1, c1) := OverflowingAdd(a, b); var (v2, c2) := OverflowingAdd(v1, carry);
      var next := Or(AsByte(c1), AsByte(c2));
      next <= 1 && v2 + 256 * next == a + b + carry
  {
    assert Or(0, 0) == 0 && Or(1, 0) == 1 && Or(0, 1) == 1;
  }

  lemma SubStep(a: byte, b: byte, borrow: byte)
    requires borrow <= 1
    ensures var (v1, b1) := OverflowingSub(a, b); var (v2, b2) := OverflowingSub(v1, borrow);
      var next := Or(AsByte(b1), AsByte(b2));
      next <= 1 && v2 - 256 * next == a - b - borrow
  {
    assert Or(0, 0) == 0 && Or(1, 0) == 1 && Or(0, 1) == 1;
  }

  // One more digit of `x + carry == a + b`, at weight p.
  lemma Carry(p: nat, x: int, a: int, b: int, carry: int, v: int, next: int, da: int, db: int)
    requires x + carry * p == a + b && v + 256 * next == da + db + carry
    ensures (x + v * p) + next * (256 * p) == (a + da * p) + (b + db * p)
  {
    calc {
      (x + v * p) + next * (256 * p);
      == { assert next * (256 * p) == (256 * next) * p; }
      x + (v + 256 * next) * p;
      == { assert (da + db + carry) * p == da * p + db * p + carry * p; }
      x + da * p + db * p + carry * p;
    }
  }

  lemma Borrow(p: nat, x: int, a: int, b: int, borrow: int, v: int, next: int, da: int, db: int)
    requires x - borrow * p == a - b && v - 256 * next == da - db - borrow
    ensures (x + v * p) - next * (256 * p) == (a + da * p) - (b + db * p)
  {
    assert (0 - borrow) * p == -(borrow * p) && (0 - next) * (256 * p) == -(next * (256 * p)) && (0 - db) * p == -(db * p);
    Carry(p, x, a, 0 - b, 0 - borrow, v, 0 - next, da, 0 - db);
  }

  // The first loop of `scalar_add_mod_order`.
  method AddBytes(left: array<byte>, right: array<byte>) returns (sum: array<byte>, carry: byte)
    requires left.Length == right.Length == 32
    ensures fresh(sum) && sum.Length == 32 && carry <= 1
    ensures Le(sum[..]) + carry * Pow256(32) == Le(left[..]) + Le(right[..])
  {
    hide Le, Pow256, Or, OverflowingAdd;
    sum := new byte[32](_ => 0);
    carry := 0;
    LeEmpty();
    for index := 0 to 32
      invariant carry <= 1
      invariant Le(sum[..index]) + carry * Pow256(index) == Le(left[..index]) + Le(right[..index])
    {
      ghost var before, was := sum[..index], carry;
      var (partial, first) := OverflowingAdd(left[index], right[index]);
      var (value, second) := OverflowingAdd(partial, carry);
      AddStep(left[index], right[index], carry);
      sum[index] := value;
      carry := Or(AsByte(first), AsByte(second));
      LeNext(left[..], index);
      LeNext(right[..], index);
      LeNext(sum[..], index);
      assert sum[..][..index] == before && sum[..][..index + 1] == sum[..index + 1];
      assert left[..][..index] == left[..index] && left[..][..index + 1] == left[..index + 1];
      assert right[..][..index] == right[..index] && right[..][..index + 1] == right[..index + 1];
      Pow256Next(index);
      Carry(Pow256(index), Le(before), Le(left[..index]), Le(right[..index]), was, value, carry, left[index], right[index]);
    }
    assert sum[..32] == sum[..] && left[..32] == left[..] && right[..32] == right[..];
  }

  lemma LeEmpty()
    ensures Le([]) == 0
  {
  }

  lemma Pow256Next(k: nat)
    ensures Pow256(k + 1) == 256 * Pow256(k)
  {
  }

  lemma LeNext(s: seq<byte>, i: nat)
    requires i < |s|
    ensures Le(s[..i + 1]) == Le(s[..i]) + s[i] * Pow256(i)
  {
    assert s[..i + 1] == s[..i] + [s[i]];
    LePush(s[..i], s[i]);
  }

  // The second: `sum` minus the order, and the last borrow.
  method SubtractOrder(sum: array<byte>) returns (difference: array<byte>, borrow: byte)
    requires sum.Length == 32
    ensures fresh(difference) && difference.Length == 32 && borrow <= 1
    ensures Le(difference[..]) - borrow * Pow256(32) == Le(sum[..]) - L
  {
    hide Le, Pow256, Or, OverflowingSub;
    difference := new byte[32](_ => 0);
    borrow := 0;
    LeEmpty();
    for index := 0 to 32
      invariant borrow <= 1
      invariant Le(difference[..index]) - borrow * Pow256(index) == Le(sum[..index]) - Le(ORDER[..index])
    {
      ghost var before, was := difference[..index], borrow;
      var (partial, first) := OverflowingSub(sum[index], ORDER[index]);
      var (value, second) := OverflowingSub(partial, borrow);
      SubStep(sum[index], ORDER[index], borrow);
      difference[index] := value;
      borrow := Or(AsByte(first), AsByte(second));
      LeNext(difference[..], index);
      LeNext(sum[..], index);
      LeNext(ORDER, index);
      assert difference[..][..index] == before && difference[..][..index + 1] == difference[..index + 1];
      assert sum[..][..index] == sum[..index] && sum[..][..index + 1] == sum[..index + 1];
      Pow256Next(index);
      Borrow(Pow256(index), Le(before), Le(sum[..index]), Le(ORDER[..index]), was, value, borrow, sum[index], ORDER[index]);
    }
    assert sum[..32] == sum[..] && difference[..32] == difference[..] && ORDER[..32] == ORDER;
    OrderIsL();
  }

  // The masked selection: `target` becomes `chosen` where the mask is ones.
  method SelectBytes(target: array<byte>, chosen: array<byte>, mask: byte)
    requires target.Length == chosen.Length == 32 && target != chosen && (mask == 0 || mask == 255)
    modifies target
    ensures target[..] == if mask == 255 then chosen[..] else old(target[..])
  {
    hide And, Or, Not;
    for index := 0 to 32
      invariant forall k | 0 <= k < index :: target[k] == if mask == 255 then chosen[k] else old(target[k])
      invariant forall k | index <= k < 32 :: target[k] == old(target[k])
    {
      Select(chosen[index], target[index], mask);
      target[index] := Or(And(chosen[index], mask), And(target[index], Not(mask)));
    }
  }

  // What the addition computes of any two 256-bit values.
  function AddOnce(a: nat, b: nat): nat {
    var sum := (a + b) % Pow256(32);
    if sum < L then sum else sum - L
  }

  // Of canonical ones it is the sum modulo l; nothing is lost in the top carry.
  lemma AddOnceIsModular(a: nat, b: nat)
    requires a < L && b < L
    ensures AddOnce(a, b) == (a + b) % L < L && (a + b) / Pow256(32) == 0
  {
    Pow256At32();
  }

  method ScalarAddModOrder(left: array<byte>, right: array<byte>) returns (sum: array<byte>)
    requires left.Length == right.Length == 32
    ensures fresh(sum) && sum.Length == 32
    ensures Le(sum[..]) == AddOnce(Le(left[..]), Le(right[..]))
    ensures Le(left[..]) < L && Le(right[..]) < L ==> Le(sum[..]) == (Le(left[..]) + Le(right[..])) % L
  {
    hide Le, Pow256, Xor, WrappingSub, AddOnce;
    var carry;
    sum, carry := AddBytes(left, right);
    ghost var total := Le(sum[..]);
    var difference, borrow := SubtractOrder(sum);
    MaskOf(borrow);
    var mask := WrappingSub(0, Xor(1, borrow));
    LeBound(difference[..]);
    LeBound(sum[..]);
    SelectBytes(sum, difference, mask);
    Selected(Le(left[..]), Le(right[..]), total, carry, Le(difference[..]), borrow);
    if Le(left[..]) < L && Le(right[..]) < L {
      AddOnceIsModular(Le(left[..]), Le(right[..]));
    }
  }

  lemma MaskOf(borrow: byte)
    requires borrow <= 1
    ensures Xor(1, borrow) == 1 - borrow && WrappingSub(0, 1 - borrow) == if borrow == 1 then 0 else 255
  {
    assert Xor(1, 0) == 1 && Xor(1, 1) == 0;
  }

  // The last borrow tells which of the two candidates is below l.
  lemma Selected(a: nat, b: nat, total: nat, carry: nat, difference: nat, borrow: nat)
    requires total + carry * Pow256(32) == a + b && total < Pow256(32) && carry <= 1
    requires difference - borrow * Pow256(32) == total - L && difference < Pow256(32) && borrow <= 1
    ensures AddOnce(a, b) == if borrow == 1 then total else difference
  {
    Pow256At32();
  }

  // ----- multiplication

  function BitOf(s: seq<byte>, k: nat): (bit: nat)
    requires k < 8 * |s|
    ensures bit <= 1
  {
    Shr(s[k / 8], k % 8) % 2
  }

  // The value of the low k bits.
  function LowBits(s: seq<byte>, k: nat): nat
    requires k <= 8 * |s|
  {
    if k == 0 then 0 else LowBits(s, k - 1) + BitOf(s, k - 1) * Pow2(k - 1)
  }

  lemma {:induction false} Pow2Sum(a: nat, b: nat)
    ensures Pow2(a + b) == Pow2(a) * Pow2(b)
  {
    if a > 0 {
      Pow2Sum(a - 1, b);
      assert 2 * (Pow2(a - 1) * Pow2(b)) == (2 * Pow2(a - 1)) * Pow2(b);
    }
  }

  lemma {:induction false} Pow2Bytes(j: nat)
    ensures Pow2(8 * j) == Pow256(j)
  {
    if j > 0 {
      Pow2Bytes(j - 1);
      Pow2Sum(8, 8 * (j - 1));
      assert Pow2(8) == 256;
    }
  }

  lemma {:induction false} BitsInByte(s: seq<byte>, j: nat, r: nat)
    requires j < |s| && r <= 8
    ensures LowBits(s, 8 * j + r) == LowBits(s, 8 * j) + (s[j] % Pow2(r)) * Pow2(8 * j)
  {
    if r > 0 {
      hide Pow2, Shr;
      BitsInByte(s, j, r - 1);
      BitInByte(s, j, r - 1);
      AddAt(s[j] % Pow2(r - 1), BitOf(s, 8 * j + r - 1), Pow2(r - 1), Pow2(8 * j));
    } else {
      PowOfZero();
    }
  }

  lemma PowOfZero()
    ensures Pow2(0) == 1
  {
  }

  lemma BitInByte(s: seq<byte>, j: nat, r: nat)
    requires j < |s| && r < 8
    ensures s[j] % Pow2(r + 1) == s[j] % Pow2(r) + BitOf(s, 8 * j + r) * Pow2(r)
    ensures Pow2(8 * j + r) == Pow2(r) * Pow2(8 * j)
  {
    hide Shr;
    assert (8 * j + r) / 8 == j && (8 * j + r) % 8 == r;
    Pow2Sum(r, 8 * j);
    ShrDivides(s[j], r);
    NextBit(s[j], Pow2(r));
  }

  lemma AddAt(low: nat, bit: nat, p: nat, q: nat)
    ensures (low + bit * p) * q == low * q + bit * (p * q)
  {
    assert (bit * p) * q == bit * (p * q);
  }

  lemma NextBit(x: nat, p: nat)
    requires p > 0
    ensures x % (2 * p) == x % p + x / p % 2 * p
  {
    var q, r := x / p, x % p;
    assert x == p * q + r;
    assert q == 2 * (q / 2) + q % 2;
    assert p * q == (2 * p) * (q / 2) + (q % 2) * p by {
      assert p * (2 * (q / 2)) == (2 * p) * (q / 2);
      assert p * (2 * (q / 2) + q % 2) == p * (2 * (q / 2)) + p * (q % 2);
    }
    MulStep(p, q % 2, 2);
    ModUnique(x, 2 * p, q / 2, (q % 2) * p + r);
  }

  lemma {:induction false} LowBitsAreBytes(s: seq<byte>, j: nat)
    requires j <= |s|
    ensures LowBits(s, 8 * j) == Le(s[..j])
  {
    hide BitOf;
    if j > 0 {
      LowBitsAreBytes(s, j - 1);
      BitsInByte(s, j - 1, 8);
      assert Pow2(8) == 256;
      Pow2Bytes(j - 1);
      LeNext(s, j - 1);
    }
  }

  lemma ModAdd(x: nat, y: nat)
    ensures (x % L + y % L) % L == (x + y) % L
  {
  }

  lemma ModMul(a: nat, bit: nat, r: nat, addend: nat, low: nat, p: nat)
    requires bit <= 1 && r == (a * low) % L && addend == (a * p) % L
    ensures (if bit == 1 then (r + addend) % L else r) == (a * (low + bit * p)) % L
    ensures (addend + addend) % L == (a * (2 * p)) % L
  {
    assert a * (low + p) == a * low + a * p && a * (2 * p) == a * p + a * p;
    ModAdd(a * low, a * p);
    ModAdd(a * p, a * p);
  }

  lemma BitMask(bit: nat)
    requires bit <= 1
    ensures WrappingSub(0, bit) == if bit == 1 then 255 else 0
  {
  }

  lemma PowOfOne()
    ensures Pow2(1) == 2
  {
  }

  lemma BitRead(s: seq<byte>, k: nat)
    requires k < 8 * |s|
    ensures And(Shr(s[k / 8], k % 8), 1) == BitOf(s, k)
  {
    hide Shr, And, Pow2;
    AndKeepsLow(Shr(s[k / 8], k % 8), 1);
    PowOfOne();
  }

  // All of the 256 steps, whatever the bits are: result and addend stay canonical, and hold the
  // product with the bits read so far and the next power of two.
  method ScalarMulModOrder(left: array<byte>, right: array<byte>) returns (result: array<byte>)
    requires left.Length == right.Length == 32 && Le(left[..]) < L
    ensures fresh(result) && result.Length == 32
    ensures Le(result[..]) == Le(left[..]) * Le(right[..]) % L
  {
    hide Le, Pow256, Pow2, And, Shr, BitOf, WrappingSub, LowBits, AddOnce;
    ghost var a, b := Le(left[..]), right[..];
    result := Zeroed();
    var addend := Copied(left);
    Start(a);
    for bitIndex := 0 to 256
      invariant fresh(result) && fresh(addend) && result != addend && result.Length == addend.Length == 32
      invariant Le(result[..]) == (a * LowBits(b, bitIndex)) % L
      invariant Le(addend[..]) == (a * Pow2(bitIndex)) % L
    {
      BitRead(b, bitIndex);
      var bit := And(Shr(right[bitIndex / 8], bitIndex % 8), 1);
      var sum := ScalarAddModOrder(result, addend);
      BitMask(bit);
      SelectBytes(result, sum, WrappingSub(0, bit));
      addend := ScalarAddModOrder(addend, addend);
      MulStepKeeps(a, b, bitIndex);
    }
    LowBitsAreBytes(b, 32);
    assert b[..32] == b;
  }

  lemma MulStepKeeps(a: nat, b: seq<byte>, k: nat)
    requires k < 8 * |b|
    ensures var r, addend := (a * LowBits(b, k)) % L, (a * Pow2(k)) % L;
      && (if BitOf(b, k) == 1 then (r + addend) % L else r) == (a * LowBits(b, k + 1)) % L
      && (addend + addend) % L == (a * Pow2(k + 1)) % L
  {
    hide BitOf;
    ModMul(a, BitOf(b, k), (a * LowBits(b, k)) % L, (a * Pow2(k)) % L, LowBits(b, k), Pow2(k));
  }

  method Zeroed() returns (a: array<byte>)
    ensures fresh(a) && a.Length == 32 && Le(a[..]) == 0
  {
    a := new byte[32](_ => 0);
    ZerosAreZero(a[..]);
  }

  lemma {:induction false} ZerosAreZero(s: seq<byte>)
    requires forall i | 0 <= i < |s| :: s[i] == 0
    ensures Le(s) == 0
  {
    if s != [] {
      ZerosAreZero(s[..|s| - 1]);
    }
  }

  method Copied(a: array<byte>) returns (b: array<byte>)
    requires a.Length == 32
    ensures fresh(b) && b.Length == 32 && b[..] == a[..]
  {
    b := new byte[32](i requires 0 <= i < a.Length reads a => a[i]);
  }

  lemma Start(a: nat)
    requires a < L
    ensures LowBits([], 0) == 0 && forall s :: (a * LowBits(s, 0)) % L == 0
    ensures (a * Pow2(0)) % L == a
  {
  }
}
