/** Products, quotients and remainders, for the proofs that need them. */
module Arithmetic {
  import opened Machine

  lemma MulLess(a: nat, b: nat, E: pos)
    requires a < b
    ensures a * E + E <= b * E
  {
    assert (b - a - 1) * E >= 0;
    assert (b - a - 1) * E == b * E - a * E - E;
  }

  lemma DivModUnique(E: pos, j: nat, i: nat, j': nat, i': nat)
    requires i < E && i' < E && j * E + i == j' * E + i'
    ensures j == j' && i == i'
  {
    if j < j' {
      MulLess(j, j', E);
    } else if j' < j {
      MulLess(j', j, E);
    }
  }

  lemma DivMod(E: pos, x: nat)
    ensures x == x / E * E + x % E && x % E < E
  {
  }

  function Quotient(x: nat, E: pos): (q: nat)
    ensures q * E <= x < q * E + E
  {
    DivMod(E, x);
    x / E
  }

  lemma DivModOf(E: pos, j: nat, i: nat)
    requires i < E
    ensures (j * E + i) / E == j && (j * E + i) % E == i
  {
    DivMod(E, j * E + i);
    DivModUnique(E, j, i, (j * E + i) / E, (j * E + i) % E);
  }

  lemma MulMono(a: nat, b: nat, c: nat)
    requires b <= c
    ensures a * b <= a * c
  {
    assert a * (c - b) >= 0;
    assert a * (c - b) == a * c - a * b;
  }

  function Pow2(k: nat): nat {
    if k == 0 then 1 else 2 * Pow2(k - 1)
  }
}
