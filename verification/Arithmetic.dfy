/**
 Products and quotients, kept apart from the proofs that need them.
 */
module Arithmetic {
  lemma MulMono(x: nat, y: nat, p: nat)
    requires x <= y
    ensures x * p <= y * p
  {
  }

  lemma SquareMono(a: nat, b: nat)
    requires a <= b
    ensures a * a <= b * b
  {
    MulMono(a, b, a);
    MulMono(a, b, b);
  }

  lemma TwiceProduct(p: nat, q: nat)
    ensures p * (2 * q) == 2 * (p * q)
  {
  }

  lemma TwiceSquare(q: nat)
    ensures (2 * q) * (2 * q) == 4 * (q * q)
  {
    TwiceProduct(2 * q, q);
    TwiceProduct(q, q);
  }

  lemma DivMod(x: nat, d: nat)
    requires d > 0
    ensures x == (x / d) * d + x % d && (x / d) * d <= x
  {
  }
}
