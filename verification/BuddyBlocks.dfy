/**
 The buddy allocator (kern/mm/buddy_pmm.c). The free blocks are always the maximal aligned blocks of free pages, so they
 are a function of the set of free pages.
 */
module BuddyBlocks {
  import opened Dyadic

  const MAX_ORDER: nat := 10

  // A page: its zone and its index from the zone's base
  datatype Pg = Pg(z: nat, i: nat)

  ghost function Pages(b: Blk): set<Pg> { set j | b.Lo() <= j < b.Hi() :: Pg(b.z, j) }

  ghost predicate IsFree(free: set<Pg>, b: Blk) {
    forall j: nat {:trigger Pg(b.z, j)} :: b.Lo() <= j < b.Hi() ==> Pg(b.z, j) in free
  }

  // No page of b is free.
  ghost predicate IsBusy(free: set<Pg>, b: Blk) {
    forall j: nat {:trigger Pg(b.z, j)} :: b.Lo() <= j < b.Hi() ==> Pg(b.z, j) !in free
  }

  // A block that is free and cannot be merged
  ghost predicate IsMax(free: set<Pg>, b: Blk) {
    b.o <= MAX_ORDER && IsFree(free, b) && (b.o < MAX_ORDER ==> !IsFree(free, b.Parent()))
  }

  // PageProperty is set on the first page of b and its property is b's order.
  ghost predicate IsHead(head: map<Pg, nat>, b: Blk) { Pg(b.z, b.Lo()) in head && head[Pg(b.z, b.Lo())] == b.o }

  ghost predicate HeadOk(head: map<Pg, nat>, p: Pg) {
    p in head && head[p] <= MAX_ORDER && exists k: nat :: Blk(p.z, k, head[p]).Lo() == p.i
  }

  // Canonical form: the heads are exactly the maximal blocks of free pages.
  ghost predicate Canonical(free: set<Pg>, head: map<Pg, nat>) {
    (forall b: Blk {:trigger IsHead(head, b)} :: b.o <= MAX_ORDER ==> (IsHead(head, b) <==> IsMax(free, b)))
    && (forall p {:trigger HeadOk(head, p)} :: p in head ==> HeadOk(head, p))
  }

  // ---------- overlapping blocks ----------

  // Whatever overlaps h is inside it or around its parent.
  lemma Overlap(b: Blk, h: Blk)
    requires !Apart(b, h)
    ensures b == h || (b.o < h.o && Within(b.Parent(), h)) || (b.o > h.o && Within(h.Parent(), b))
  {
    if b.o < h.o {
      ParentWithin(b, h);
    } else if b.o > h.o {
      ParentWithin(h, b);
    } else {
      SameOrder(b, h);
    }
  }

  lemma FreeWithin(free: set<Pg>, a: Blk, b: Blk)
    requires Within(a, b) && IsFree(free, b)
    ensures IsFree(free, a)
  {
  }

  lemma NotFreeAndBusy(free: set<Pg>, a: Blk, b: Blk)
    requires !Apart(a, b) && IsBusy(free, b)
    ensures !IsFree(free, a)
  {
    var j := if a.Lo() < b.Lo() then b.Lo() else a.Lo();
    assert Pg(a.z, j) !in free;
  }

  // The parent of a block that is apart from h
  lemma ParentOverlap(b: Blk, h: Blk)
    requires Apart(b, h)
    ensures Apart(b.Parent(), h) || (b.o + 1 > h.o && Within(h.Parent(), b.Parent()))
  {
    Halves(b);
    if !Apart(b.Parent(), h) {
      Overlap(b.Parent(), h);
      if b.Parent() == h || (b.o + 1 < h.o && Within(b.Parent().Parent(), h)) {
        Halves(b.Parent());
      }
    }
  }

  // ---------- adding and removing a maximal block ----------

  lemma ApartUntouched(free: set<Pg>, b: Blk, h: Blk)
    requires Apart(b, h)
    ensures IsFree(free + Pages(h), b) <==> IsFree(free, b)
    ensures IsFree(free - Pages(h), b) <==> IsFree(free, b)
  {
    assert forall j: nat :: b.Lo() <= j < b.Hi() ==> Pg(b.z, j) !in Pages(h);
  }

  lemma AddAt(free: set<Pg>, head: map<Pg, nat>, h: Blk, b: Blk)
    requires Canonical(free, head) && h.o <= MAX_ORDER && b.o <= MAX_ORDER && IsBusy(free, h)
    requires h.o < MAX_ORDER ==> !IsFree(free + Pages(h), h.Parent())
    ensures IsHead(head[Pg(h.z, h.Lo()) := h.o], b) <==> IsMax(free + Pages(h), b)
  {
    var free', head' := free + Pages(h), head[Pg(h.z, h.Lo()) := h.o];
    assert IsHead(head, b) <==> IsMax(free, b);
    assert IsFree(free', h);
    if b == h {
    } else if !Apart(b, h) {
      Overlap(b, h);
      NotFreeAndBusy(free, b, h);
      assert !IsHead(head, b) && !IsHead(head', b);
      if b.o < h.o {
        FreeWithin(free', b.Parent(), h);
      } else if IsFree(free', b) {
        FreeWithin(free', h.Parent(), b);
      }
    } else {
      ApartUntouched(free, b, h);
      ParentOverlap(b, h);
      if Apart(b.Parent(), h) {
        ApartUntouched(free, b.Parent(), h);
      } else {
        NotFreeAndBusy(free, b.Parent(), h);
        if b.o < MAX_ORDER && IsFree(free', b.Parent()) {
          FreeWithin(free', h.Parent(), b.Parent());
        }
      }
    }
  }

  // A block none of whose pages is free, and that cannot be merged, becomes a free block.
  lemma AddCanonical(free: set<Pg>, head: map<Pg, nat>, h: Blk)
    requires Canonical(free, head) && h.o <= MAX_ORDER && IsBusy(free, h)
    requires h.o < MAX_ORDER ==> !IsFree(free + Pages(h), h.Parent())
    ensures Canonical(free + Pages(h), head[Pg(h.z, h.Lo()) := h.o])
  {
    var free', head' := free + Pages(h), head[Pg(h.z, h.Lo()) := h.o];
    forall b: Blk | b.o <= MAX_ORDER ensures IsHead(head', b) <==> IsMax(free', b) {
      AddAt(free, head, h, b);
    }
    forall p | p in head' ensures HeadOk(head', p) {
      if p == Pg(h.z, h.Lo()) {
        assert Blk(p.z, h.k, head'[p]).Lo() == p.i;
      } else {
        assert HeadOk(head, p);
      }
    }
  }

  lemma RemoveAt(free: set<Pg>, head: map<Pg, nat>, h: Blk, b: Blk)
    requires Canonical(free, head) && b.o <= MAX_ORDER && IsMax(free, h)
    ensures IsHead(head - {Pg(h.z, h.Lo())}, b) <==> IsMax(free - Pages(h), b)
  {
    var free', head' := free - Pages(h), head - {Pg(h.z, h.Lo())};
    assert IsHead(head, b) <==> IsMax(free, b);
    assert IsBusy(free', h);
    if !Apart(b, h) {
      Overlap(b, h);
      NotFreeAndBusy(free', b, h);
      if b.o < h.o {
        FreeWithin(free, b.Parent(), h);
      } else if b.o > h.o && IsFree(free, b) {
        FreeWithin(free, h.Parent(), b);
      }
    } else {
      ApartUntouched(free, b, h);
      ParentOverlap(b, h);
      if Apart(b.Parent(), h) {
        ApartUntouched(free, b.Parent(), h);
      } else {
        NotFreeAndBusy(free', b.Parent(), h);
        if b.o < MAX_ORDER && IsFree(free, b.Parent()) {
          FreeWithin(free, h.Parent(), b.Parent());
        }
      }
    }
  }

  // A free block is taken whole.
  lemma RemoveCanonical(free: set<Pg>, head: map<Pg, nat>, h: Blk)
    requires Canonical(free, head) && IsMax(free, h)
    ensures Canonical(free - Pages(h), head - {Pg(h.z, h.Lo())})
  {
    var free', head' := free - Pages(h), head - {Pg(h.z, h.Lo())};
    forall b: Blk | b.o <= MAX_ORDER ensures IsHead(head', b) <==> IsMax(free', b) {
      RemoveAt(free, head, h, b);
    }
    forall p | p in head' ensures HeadOk(head', p) {
      assert HeadOk(head, p);
    }
  }

  // ---------- consequences of the canonical form ----------

  // The free blocks are a function of the free pages.
  lemma CanonicalIsUnique(free: set<Pg>, head: map<Pg, nat>, head': map<Pg, nat>)
    requires Canonical(free, head) && Canonical(free, head')
    ensures head == head'
  {
    forall p ensures p in head <==> p in head' {
      SameHead(free, head, head', p);
      SameHead(free, head', head, p);
    }
    forall p | p in head ensures head[p] == head'[p] {
      SameHead(free, head, head', p);
    }
  }

  lemma SameHead(free: set<Pg>, head: map<Pg, nat>, head': map<Pg, nat>, p: Pg)
    requires Canonical(free, head) && Canonical(free, head')
    ensures p in head ==> p in head' && head'[p] == head[p]
  {
    if p in head {
      assert HeadOk(head, p);
      var k: nat :| Blk(p.z, k, head[p]).Lo() == p.i;
      var b := Blk(p.z, k, head[p]);
      assert IsHead(head, b) && IsHead(head', b);
    }
  }

  // No two buddies of the same order below MAX_ORDER are both free.
  lemma NoFreeBuddies(free: set<Pg>, head: map<Pg, nat>, b: Blk)
    requires Canonical(free, head) && b.o < MAX_ORDER && IsHead(head, b)
    ensures !IsHead(head, b.Buddy())
  {
    Halves(b);
    if IsHead(head, b.Buddy()) {
      assert IsMax(free, b) && IsMax(free, b.Buddy());
      assert IsFree(free, b.Parent());
    }
  }

  // If any aligned block of order o is wholly free, some block of order at least o is on a list.
  lemma {:induction false} SomeHead(free: set<Pg>, head: map<Pg, nat>, b: Blk) returns (h: Blk)
    requires Canonical(free, head) && IsFree(free, b) && b.o <= MAX_ORDER
    ensures IsHead(head, h) && b.o <= h.o <= MAX_ORDER && Within(b, h)
    decreases MAX_ORDER - b.o
  {
    if b.o < MAX_ORDER && IsFree(free, b.Parent()) {
      Halves(b);
      h := SomeHead(free, head, b.Parent());
    } else {
      h := b;
      assert IsMax(free, b);
    }
  }
}
