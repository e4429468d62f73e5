/**
 Blocks of 2^o pages starting at a multiple of 2^o: the arithmetic under the buddy allocator.
 */
module Dyadic {
  import opened Arithmetic


  function Pow2(o: nat): (p: nat)
    ensures p > 0
  {
    if o == 0 then 1 else 2 * Pow2(o - 1)
  }

  // The k-th block of order o of zone z
  datatype Blk = Blk(z: nat, k: nat, o: nat) {
    function Lo(): nat { k * Pow2(o) }
    function Hi(): nat { k * Pow2(o) + Pow2(o) }
    function Parent(): Blk { Blk(z, k / 2, o + 1) }
    function Buddy(): Blk { Blk(z, if k % 2 == 0 then k + 1 else k - 1, o) }
  }

  predicate Within(a: Blk, b: Blk) { a.z == b.z && b.Lo() <= a.Lo() && a.Hi() <= b.Hi() }

  predicate Apart(a: Blk, b: Blk) { a.z != b.z || a.Hi() <= b.Lo() || b.Hi() <= a.Lo() }

  lemma {:induction false} Pow2Mono(a: nat, b: nat)
    requires a <= b
    ensures Pow2(a) <= Pow2(b)
    decreases b
  {
    if a < b {
      Pow2Mono(a, b - 1);
    }
  }

  // A block is the lower or the upper half of its parent, and its buddy is the other half.
  lemma Halves(b: Blk)
    ensures b.Parent().Lo() == if b.k % 2 == 0 then b.Lo() else b.Buddy().Lo()
    ensures b.Parent().Hi() == if b.k % 2 == 0 then b.Buddy().Hi() else b.Hi()
    ensures b.k % 2 == 0 ==> b.Buddy().Lo() == b.Hi()
    ensures b.k % 2 == 1 ==> b.Buddy().Hi() == b.Lo()
    ensures b.Buddy().Parent() == b.Parent() && Within(b, b.Parent())
  {
    var p, h := Pow2(b.o), b.k / 2;
    assert Pow2(b.o + 1) == 2 * p;
    assert h * (2 * p) == (2 * h) * p;
    assert b.k % 2 == 1 ==> (2 * h + 1) * p == (2 * h) * p + p;
    assert b.k % 2 == 0 ==> (b.k + 1) * p == b.k * p + p;
    assert b.k % 2 == 1 ==> (b.k - 1) * p + p == b.k * p;
  }

  lemma SameOrder(a: Blk, b: Blk)
    requires a.o == b.o && a.z == b.z
    ensures a == b || Apart(a, b)
  {
    var p := Pow2(a.o);
    if a.k < b.k {
      assert (a.k + 1) * p == a.k * p + p;
      MulMono(a.k + 1, b.k, p);
    } else if b.k < a.k {
      assert (b.k + 1) * p == b.k * p + p;
      MulMono(b.k + 1, a.k, p);
    }
  }

  // Two blocks are nested or apart.
  lemma {:induction false} Nested(a: Blk, b: Blk)
    requires a.o <= b.o
    ensures Within(a, b) || Apart(a, b)
    decreases b.o - a.o
  {
    if a.z == b.z {
      if a.o == b.o {
        SameOrder(a, b);
      } else {
        Halves(a);
        Nested(a.Parent(), b);
      }
    }
  }

  // A block strictly inside another has its parent inside it too.
  lemma ParentWithin(a: Blk, b: Blk)
    requires a.o < b.o && !Apart(a, b)
    ensures Within(a.Parent(), b) && Within(a, b)
  {
    Halves(a);
    Nested(a.Parent(), b);
  }

  // Exclusive or with 2^o flips bit o.
  function Xor(a: nat, b: nat): nat
    decreases a + b
  {
    if a == 0 then b else if b == 0 then a
    else 2 * Xor(a / 2, b / 2) + (a % 2 + b % 2) % 2
  }

  function And(a: nat, b: nat): nat {
    if a == 0 || b == 0 then 0 else 2 * And(a / 2, b / 2) + if a % 2 == 1 && b % 2 == 1 then 1 else 0
  }

  lemma {:induction false} AndSelf(a: nat)
    ensures And(a, a) == a
  {
    if a > 0 {
      AndSelf(a / 2);
    }
  }

  lemma LowestBit(k: nat)
    ensures Xor(k, 1) == if k % 2 == 0 then k + 1 else k - 1
    ensures And(k, Xor(k, 1)) == 2 * (k / 2)
  {
    AndSelf(k / 2);
  }

  lemma Shifted(k: nat, o: nat)
    requires o > 0
    ensures k * Pow2(o) == 2 * (k * Pow2(o - 1))
  {
    TwiceProduct(k, Pow2(o - 1));
  }

  lemma DoubleBits(a: nat, b: nat)
    ensures Xor(2 * a, 2 * b) == 2 * Xor(a, b) && And(2 * a, 2 * b) == 2 * And(a, b)
  {
    Even(a);
    Even(b);
    DoubleXor(2 * a, 2 * b, a, b);
    DoubleAnd(2 * a, 2 * b, a, b);
  }

  lemma Even(a: nat)
    ensures 2 * a / 2 == a && 2 * a % 2 == 0
  {
  }

  lemma DoubleXor(x: nat, y: nat, a: nat, b: nat)
    requires x == 2 * a && y == 2 * b && x / 2 == a && y / 2 == b && x % 2 == 0 && y % 2 == 0
    ensures Xor(x, y) == 2 * Xor(a, b)
  {
  }

  lemma DoubleAnd(x: nat, y: nat, a: nat, b: nat)
    requires x == 2 * a && y == 2 * b && x / 2 == a && y / 2 == b && x % 2 == 0 && y % 2 == 0
    ensures And(x, y) == 2 * And(a, b)
  {
  }

  lemma DoubledXor(x: nat, y: nat, a: nat, b: nat)
    requires x == 2 * a && y == 2 * b
    ensures Xor(x, y) == 2 * Xor(a, b)
  {
    DoubleBits(a, b);
  }

  lemma DoubledAnd(x: nat, y: nat, a: nat, b: nat)
    requires x == 2 * a && y == 2 * b
    ensures And(x, y) == 2 * And(a, b)
  {
    DoubleBits(a, b);
  }

  lemma {:induction false} ShiftedXor(a: nat, b: nat, x: nat, o: nat)
    requires Xor(a, b) == x
    ensures Xor(a * Pow2(o), b * Pow2(o)) == x * Pow2(o)
    decreases o
  {
    if o > 0 {
      var p, q := Pow2(o), Pow2(o - 1);
      ShiftedXor(a, b, x, o - 1);
      TwiceProduct(a, q);
      TwiceProduct(b, q);
      TwiceProduct(x, q);
      DoubledXor(a * p, b * p, a * q, b * q);
    }
  }

  lemma {:induction false} ShiftedAnd(a: nat, b: nat, x: nat, o: nat)
    requires And(a, b) == x
    ensures And(a * Pow2(o), b * Pow2(o)) == x * Pow2(o)
    decreases o
  {
    if o > 0 {
      var p, q := Pow2(o), Pow2(o - 1);
      ShiftedAnd(a, b, x, o - 1);
      TwiceProduct(a, q);
      TwiceProduct(b, q);
      TwiceProduct(x, q);
      DoubledAnd(a * p, b * p, a * q, b * q);
    }
  }

  lemma MoveTwo(h: nat, p: nat)
    ensures (2 * h) * p == h * (2 * p)
  {
  }

  // page_idx ^ (1 << order) is the index of the buddy, and its conjunction with page_idx that of the parent.
  lemma BuddyByXor(b: Blk)
    ensures Xor(b.Lo(), Pow2(b.o)) == b.Buddy().Lo()
  {
    var x := Xor(b.k, 1);
    assert x == b.Buddy().k by { LowestBit(b.k); }
    assert Xor(b.k * Pow2(b.o), 1 * Pow2(b.o)) == x * Pow2(b.o) by { ShiftedXor(b.k, 1, x, b.o); }
  }

  lemma AndOfMultiples(k: nat, j: nat, o: nat, h: nat)
    requires And(k, j) == 2 * h
    ensures And(k * Pow2(o), j * Pow2(o)) == h * Pow2(o + 1)
  {
    ShiftedAnd(k, j, 2 * h, o);
    MoveTwo(h, Pow2(o));
  }

  lemma ParentByAnd(b: Blk)
    ensures And(b.Lo(), b.Buddy().Lo()) == b.Parent().Lo()
  {
    LowestBit(b.k);
    AndOfMultiples(b.k, b.Buddy().k, b.o, b.k / 2);
  }

  // ---------- alignment ----------

  predicate Aligned(i: nat, o: nat) { o == 0 || (i % 2 == 0 && Aligned(i / 2, o - 1)) }

  lemma {:induction false} AlignedIsMultiple(i: nat, o: nat) returns (k: nat)
    requires Aligned(i, o)
    ensures i == k * Pow2(o)
    decreases o
  {
    if o == 0 {
      k := i;
    } else {
      k := AlignedIsMultiple(i / 2, o - 1);
      Shifted(k, o);
    }
  }

  lemma {:induction false} MultipleIsAligned(k: nat, o: nat)
    ensures Aligned(k * Pow2(o), o)
    decreases o
  {
    if o > 0 {
      MultipleIsAligned(k, o - 1);
      Shifted(k, o);
    }
  }

  lemma BitOfMultiple(k: nat, o: nat)
    ensures And(k * Pow2(o), Pow2(o)) != 0 <==> k % 2 == 1
  {
    assert And(k, 1) == k % 2;
    ShiftedAnd(k, 1, k % 2, o);
  }

  lemma EvenMultiple(k: nat, o: nat)
    requires k % 2 == 0
    ensures Aligned(k * Pow2(o), o + 1)
  {
    MultipleIsAligned(k / 2, o + 1);
    MoveTwo(k / 2, Pow2(o));
  }

  lemma NextMultiple(k: nat, p: nat)
    ensures (k + 1) * p == k * p + p
  {
  }

  // i & 2^o tells whether i, a multiple of 2^o, is an even one.
  lemma AlignedBit(i: nat, o: nat)
    requires Aligned(i, o)
    ensures And(i, Pow2(o)) == 0 ==> Aligned(i, o + 1)
    ensures And(i, Pow2(o)) != 0 ==> Aligned(i + Pow2(o), o + 1)
  {
    var k := AlignedIsMultiple(i, o);
    BitOfMultiple(k, o);
    AlignedByParity(i, o, k);
  }

  lemma AlignedByParity(i: nat, o: nat, k: nat)
    requires i == k * Pow2(o)
    ensures if k % 2 == 0 then Aligned(i, o + 1) else Aligned(i + Pow2(o), o + 1)
  {
    if k % 2 == 0 {
      EvenMultiple(k, o);
    } else {
      NextMultiple(k, Pow2(o));
      EvenMultiple(k + 1, o);
    }
  }

  lemma {:induction false} AlignedLower(i: nat, o: nat)
    requires Aligned(i, o + 1)
    ensures Aligned(i, o)
    decreases o
  {
    if o > 0 {
      AlignedLower(i / 2, o - 1);
    }
  }

  lemma {:induction false} AlignedNext(i: nat, o: nat)
    requires Aligned(i, o)
    ensures Aligned(i + Pow2(o), o)
    decreases o
  {
    if o > 0 {
      AlignedNext(i / 2, o - 1);
    }
  }
}
