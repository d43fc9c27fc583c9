// Bitwise operations on unsigned integers, by their binary digits.
module Bits {
  import opened Bytes
  import opened Modular

  function And(a: nat, b: nat): (r: nat)
    ensures r <= a && r <= b
  {
    if a == 0 && b == 0 then 0 else 2 * And(a / 2, b / 2) + (if a % 2 == 1 && b % 2 == 1 then 1 else 0)
  }

  function Or(a: nat, b: nat): nat {
    if a == 0 && b == 0 then 0 else 2 * Or(a / 2, b / 2) + (if a % 2 == 0 && b % 2 == 0 then 0 else 1)
  }

  function Xor(a: nat, b: nat): nat {
    if a == 0 && b == 0 then 0 else 2 * Xor(a / 2, b / 2) + (if a % 2 == b % 2 then 0 else 1)
  }

  // `!` on a byte.
  function Not(a: byte): byte {
    255 - a
  }

  lemma {:induction false} XorIsZero(a: nat, b: nat)
    ensures Xor(a, b) == 0 <==> a == b
  {
    if a != 0 || b != 0 {
      XorIsZero(a / 2, b / 2);
    }
  }

  lemma {:induction false} OrIsZero(a: nat, b: nat)
    ensures Or(a, b) == 0 <==> a == 0 && b == 0
  {
    if a != 0 || b != 0 {
      OrIsZero(a / 2, b / 2);
    }
  }

  lemma {:induction false} OrWithZero(a: nat)
    ensures Or(a, 0) == a && Or(0, a) == a
  {
    if a != 0 {
      OrWithZero(a / 2);
    }
  }

  lemma {:induction false} AndWithZero(a: nat)
    ensures And(a, 0) == 0
  {
    if a != 0 {
      AndWithZero(a / 2);
    }
  }

  function Pow2(k: nat): (p: nat)
    ensures p > 0
  {
    if k == 0 then 1 else 2 * Pow2(k - 1)
  }

  // `>>`.
  function Shr(a: nat, k: nat): (r: nat)
    ensures r <= a
  {
    if k == 0 then a else Shr(a / 2, k - 1)
  }

  lemma {:induction false} ShrDivides(a: nat, k: nat)
    ensures Shr(a, k) == a / Pow2(k)
  {
    if k > 0 {
      ShrDivides(a / 2, k - 1);
      ModHalves(a, Pow2(k - 1));
    }
  }

  // `<<`, without a width.
  function Shl(a: nat, k: nat): nat {
    if k == 0 then a else 2 * Shl(a, k - 1)
  }

  lemma ShlTwice(a: nat, k: nat)
    ensures Shl(a, k + 2) == 4 * Shl(a, k)
  {
    assert Shl(a, k + 2) == 2 * Shl(a, k + 1);
  }

  lemma ShlByte(a: nat)
    ensures Shl(a, 8) == 256 * a
  {
    ShlTwice(a, 0);
    ShlTwice(a, 2);
    ShlTwice(a, 4);
    ShlTwice(a, 6);
    assert Shl(a, 0) == a;
  }

  lemma SmallPowers()
    ensures Pow2(0) == 1 && Pow2(1) == 2 && Pow2(2) == 4 && Pow2(3) == 8 && Pow2(4) == 16 && Pow2(5) == 32
    ensures Pow2(6) == 64 && Pow2(7) == 128 && Pow2(8) == 256
  {
  }

  lemma {:induction false} OrAppends(high: nat, low: nat, k: nat)
    requires low < Pow2(k)
    ensures Or(Shl(high, k), low) == Shl(high, k) + low
  {
    if k == 0 {
      OrWithZero(high);
    } else {
      OrAppends(high, low / 2, k - 1);
    }
  }

  lemma {:induction false} OrDisjoint(a: nat, k: nat)
    requires a < Pow2(k)
    ensures Or(a, Pow2(k)) == a + Pow2(k)
  {
    if k == 0 {
      assert Or(0, 1) == 1;
    } else {
      OrDisjoint(a / 2, k - 1);
    }
  }

  // A mask of ones keeps the low bits, and nothing else.
  lemma {:induction false} AndWithOnes(a: nat, k: nat)
    requires a < Pow2(k)
    ensures And(a, Pow2(k) - 1) == a
  {
    if k == 0 {
      AndWithZero(a);
    } else {
      AndWithOnes(a / 2, k - 1);
      assert (Pow2(k) - 1) / 2 == Pow2(k - 1) - 1;
    }
  }

  lemma {:induction false} AndKeepsLow(a: nat, k: nat)
    ensures And(a, Pow2(k) - 1) == a % Pow2(k)
  {
    if k == 0 {
      AndWithZero(a);
    } else {
      AndKeepsLow(a / 2, k - 1);
      assert (Pow2(k) - 1) / 2 == Pow2(k - 1) - 1;
      ModHalves(a, Pow2(k - 1));
    }
  }

  lemma ModHalves(a: nat, p: nat)
    requires p > 0
    ensures a % (2 * p) == 2 * ((a / 2) % p) + a % 2 && a / (2 * p) == a / 2 / p
  {
    var q, r := (a / 2) / p, (a / 2) % p;
    assert a == (2 * p) * q + (2 * r + a % 2) by {
      assert a / 2 == p * q + r;
      assert 2 * (p * q) == (2 * p) * q;
    }
    ModUnique(a, 2 * p, q, 2 * r + a % 2);
  }

  // Selection by a byte mask of all ones or all zeros.
  lemma Select(a: byte, b: byte, mask: byte)
    requires mask == 0 || mask == 255
    ensures Or(And(a, mask), And(b, Not(mask))) == if mask == 255 then a else b
  {
    assert Pow2(8) == 256;
    AndWithOnes(a, 8);
    AndWithOnes(b, 8);
    AndWithZero(a);
    AndWithZero(b);
    OrWithZero(a);
    OrWithZero(b);
  }
}
