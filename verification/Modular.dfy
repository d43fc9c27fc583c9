// Remainders of products and sums, for any modulus.
module Modular {

  lemma {:induction false} MulStep(m: nat, a: nat, b: nat)
    ensures a < b ==> m * a + m <= m * b
    decreases b
  {
    if a + 1 < b {
      MulStep(m, a, b - 1);
    }
    assert m * b == m * (b - 1) + m;
  }

  lemma ModUnique(x: nat, m: nat, q: nat, r: nat)
    requires m > 0 && r < m && x == m * q + r
    ensures x % m == r && x / m == q
  {
    MulStep(m, q, x / m);
    MulStep(m, x / m, q);
  }

  lemma Factor(m: nat, p: nat, q: nat)
    ensures m * (p + q) == m * p + m * q
  {
  }

  lemma ModOfMultiple(x: nat, m: nat, q: nat)
    requires m > 0
    ensures (x + m * q) % m == x % m
  {
    Factor(m, x / m, q);
    ModUnique(x + m * q, m, x / m + q, x % m);
  }

  // Reducing a factor or a summand first does not change the remainder.
  lemma ModOfProduct(k: nat, a: nat, m: nat)
    requires m > 0
    ensures ((k % m) * a) % m == (k * a) % m
  {
    var q, r := k / m, k % m;
    assert k == m * q + r;
    ModOfExpanded(q, r, a, m);
  }

  lemma ModOfExpanded(q: nat, r: nat, a: nat, m: nat)
    requires m > 0
    ensures ((m * q + r) * a) % m == (r * a) % m
  {
    Regroup(m, q, r, a);
    ModOfMultiple(r * a, m, q * a);
  }

  lemma Regroup(m: nat, q: nat, r: nat, a: nat)
    ensures (m * q + r) * a == r * a + m * (q * a)
  {
    assert (m * q) * a == m * (q * a);
    Factor(a, m * q, r);
  }

  lemma ModOfSum(x: nat, y: nat, m: nat)
    requires m > 0
    ensures (x % m + y) % m == (x + y) % m
  {
    var q, r := x / m, x % m;
    assert x == m * q + r;
    ModOfShifted(q, r, y, m);
  }

  lemma ModOfShifted(q: nat, r: nat, y: nat, m: nat)
    requires m > 0
    ensures (m * q + r + y) % m == (r + y) % m
  {
    ModOfMultiple(r + y, m, q);
  }
}
