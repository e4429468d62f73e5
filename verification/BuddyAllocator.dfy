/**
 The operations of kern/mm/buddy_pmm.c on its free lists.
 */
module BuddyAllocator {
  import opened Options
  import opened Arithmetic
  import opened Lists
  import opened Dyadic
  import opened BuddyBlocks

  const MAX_ZONE_NUM := 10

  // The pages [lo, hi) of a zone
  ghost function Span(z: nat, lo: nat, hi: nat): set<Pg> { set j | lo <= j < hi :: Pg(z, j) }

  // The pages [lo, hi) of zone z have been added, or taken.
  ghost predicate Plus(free: set<Pg>, was: set<Pg>, z: nat, lo: nat, hi: nat) { free == was + Span(z, lo, hi) }

  ghost predicate Minus(free: set<Pg>, was: set<Pg>, z: nat, lo: nat, hi: nat) {
    Span(z, lo, hi) <= was && free == was - Span(z, lo, hi)
  }

  ghost predicate Away(free: set<Pg>, z: nat, lo: nat, hi: nat) { free !! Span(z, lo, hi) }

  lemma AwayPart(free: set<Pg>, z: nat, lo: nat, hi: nat, lo': nat, hi': nat)
    requires Away(free, z, lo, hi) && lo <= lo' <= hi' <= hi
    ensures Away(free, z, lo', hi')
  {
    assert Span(z, lo', hi') <= Span(z, lo, hi);
  }

  // No aligned block of that order is wholly free.
  ghost predicate NoneFree(free: set<Pg>, order: nat) {
    forall c: Blk {:trigger IsFree(free, c)} :: c.o == order ==> !IsFree(free, c)
  }

  // p heads a smallest of the free blocks that are large enough.
  ghost predicate BestFit(head: map<Pg, nat>, order: nat, p: Pg) {
    p in head && order <= head[p] && forall q :: q in head && order <= head[q] ==> head[p] <= head[q]
  }

  // It is the one that was listed last.
  ghost predicate Foremost(lists: seq<seq<Pg>>, head: map<Pg, nat>, order: nat, p: Pg) {
    BestFit(head, order, p) && head[p] < |lists| && lists[head[p]] != [] && lists[head[p]][0] == p
  }

  lemma FirstIsBest(lists: seq<seq<Pg>>, nr: seq<nat>, head: map<Pg, nat>, order: nat, cur: nat)
    requires order <= cur <= MAX_ORDER && forall o :: 0 <= o <= MAX_ORDER ==> LevelOk(lists, nr, head, o)
    requires |lists| == MAX_ORDER + 1 && lists[cur] != [] && forall o :: order <= o < cur ==> lists[o] == []
    ensures Foremost(lists, head, order, lists[cur][0])
  {
    var p := lists[cur][0];
    assert LevelOk(lists, nr, head, cur) && p in lists[cur];
    forall q | q in head && order <= head[q] ensures cur <= head[q] {
      assert head[q] <= MAX_ORDER ==> LevelOk(lists, nr, head, head[q]);
    }
  }

  // p lies in the block of that order from page h on.
  predicate Around(h: Pg, order: nat, p: Pg) { h.z == p.z && h.i <= p.i < h.i + Pow2(order) }

  // The block that p lies in comes first on its list.
  ghost predicate ListedFirst(lists: seq<seq<Pg>>, p: Pg) {
    exists o :: 0 <= o < |lists| && lists[o] != [] && Around(lists[o][0], o, p)
  }

  ghost predicate ListOk(list: seq<Pg>, nr: nat, head: map<Pg, nat>, o: nat) {
    NoDup(list) && nr == |list| && forall p :: p in list <==> p in head && head[p] == o
  }

  // sum of nr_free(o) * 2^o from order o on
  function NrPages(nr: seq<nat>, o: nat): nat
    requires o <= |nr|
    decreases |nr| - o
  {
    if o == |nr| then 0 else nr[o] * Pow2(o) + NrPages(nr, o + 1)
  }

  lemma {:induction false} NrPagesInc(nr: seq<nat>, at: nat, o: nat)
    requires o <= |nr| && at < |nr|
    ensures NrPages(nr[at := nr[at] + 1], o) == NrPages(nr, o) + if o <= at then Pow2(at) else 0
    decreases |nr| - o
  {
    if o < |nr| {
      NrPagesInc(nr, at, o + 1);
      NextMultiple(nr[at], Pow2(at));
    }
  }

  lemma {:induction false} SpanSize(z: nat, lo: nat, hi: nat)
    requires lo <= hi
    ensures |Span(z, lo, hi)| == hi - lo
    decreases hi
  {
    if lo < hi {
      SpanSize(z, lo, hi - 1);
      assert Span(z, lo, hi) == Span(z, lo, hi - 1) + {Pg(z, hi - 1)};
    } else {
      assert Span(z, lo, hi) == {};
    }
  }

  lemma SpanSplit(z: nat, a: nat, b: nat, c: nat)
    requires a <= b <= c
    ensures Span(z, a, c) == Span(z, a, b) + Span(z, b, c) && Span(z, a, b) !! Span(z, b, c)
  {
  }

  lemma PagesSpan(b: Blk)
    ensures Pages(b) == Span(b.z, b.Lo(), b.Hi()) && |Pages(b)| == Pow2(b.o)
  {
    assert Pages(b) == Span(b.z, b.Lo(), b.Hi());
    SpanSize(b.z, b.Lo(), b.Hi());
  }

  lemma HeadIsFree(free: set<Pg>, head: map<Pg, nat>, p: Pg) returns (b: Blk)
    requires Canonical(free, head) && p in head
    ensures p == Pg(b.z, b.Lo()) && b.o == head[p] && IsHead(head, b) && IsMax(free, b) && p in free
  {
    assert HeadOk(head, p);
    var k: nat :| Blk(p.z, k, head[p]).Lo() == p.i;
    b := Blk(p.z, k, head[p]);
    assert IsHead(head, b);
    assert Pg(b.z, b.Lo()) in free;
  }

  lemma BusyIsNoHead(free: set<Pg>, head: map<Pg, nat>, b: Blk)
    requires Canonical(free, head) && IsBusy(free, b)
    ensures forall j: nat :: b.Lo() <= j < b.Hi() ==> Pg(b.z, j) !in head
  {
    forall j: nat | b.Lo() <= j < b.Hi() ensures Pg(b.z, j) !in head {
      if Pg(b.z, j) in head {
        var h := HeadIsFree(free, head, Pg(b.z, j));
      }
    }
  }

  lemma ListAdd(list: seq<Pg>, nr: nat, head: map<Pg, nat>, o: nat, page: Pg)
    requires ListOk(list, nr, head, o) && page !in head
    ensures ListOk([page] + list, nr + 1, head[page := o], o)
  {
    assert page !in list;
  }

  ghost predicate LevelOk(lists: seq<seq<Pg>>, nr: seq<nat>, head: map<Pg, nat>, o: nat) {
    o < |lists| && o < |nr| && ListOk(lists[o], nr[o], head, o)
  }

  // ---------- which ranges buddy_free_pages can free ----------

  // The first index at or after i that is aligned for the order above the largest
  function NextBoundary(i: nat): (u: nat)
    ensures i <= u < i + Pow2(MAX_ORDER + 1)
  {
    var p := Pow2(MAX_ORDER + 1);
    Boundary(i, p);
    (i + p - 1) / p * p
  }

  lemma Boundary(i: nat, p: nat)
    requires p > 0
    ensures i <= (i + p - 1) / p * p < i + p
  {
    var x := i + p - 1;
    assert x == x / p * p + x % p;
  }

  // A range that ends less than 2^(MAX_ORDER + 1) pages after that boundary
  predicate Freeable(i: nat, n: nat) { i + n < NextBoundary(i) + Pow2(MAX_ORDER + 1) }

  lemma ShortFreeable(i: nat, n: nat)
    requires n < Pow2(MAX_ORDER + 1)
    ensures Freeable(i, n)
  {
  }

  // assert(order <= MAX_ORDER) holds in every turn of the first loop of buddy_free_pages from index i, n pages and order on.
  predicate FrontHolds(i: nat, n: nat, order: nat)
    decreases MAX_ORDER + 1 - order
  {
    n < Pow2(order) || (order <= MAX_ORDER && FrontHolds(NextIndex(i, order), n - (NextIndex(i, order) - i), order + 1))
  }

  // Where a turn of that loop leaves the index
  function NextIndex(i: nat, order: nat): (next: nat)
    ensures i <= next <= i + Pow2(order)
  {
    if And(i, Pow2(order)) != 0 then i + Pow2(order) else i
  }

  lemma BoundaryIsAligned(i: nat)
    ensures Aligned(NextBoundary(i), MAX_ORDER + 1)
  {
    var p := Pow2(MAX_ORDER + 1);
    MultipleIsAligned((i + p - 1) / p, MAX_ORDER + 1);
  }

  lemma {:induction false} AlignedDown(i: nat, o: nat, m: nat)
    requires Aligned(i, m) && o <= m
    ensures Aligned(i, o)
    decreases m - o
  {
    if o < m {
      AlignedLower(i, m - 1);
      AlignedDown(i, o, m - 1);
    }
  }

  // Freeing an odd piece does not move the boundary.
  lemma SameBoundary(i: nat, order: nat)
    requires Aligned(i, order) && And(i, Pow2(order)) != 0 && order <= MAX_ORDER
    ensures NextBoundary(i + Pow2(order)) == NextBoundary(i)
  {
    var u := NextBoundary(i);
    BoundaryIsAligned(i);
    AlignedDown(u, order + 1, MAX_ORDER + 1);
    var k := AlignedIsMultiple(i, order);
    BitOfMultiple(k, order);
    var h := AlignedIsMultiple(u, order + 1);
    MoveTwo(h, Pow2(order));
    NextMultiple(k, Pow2(order));
    if 2 * h <= k {
      MulMono(2 * h + 1, k, Pow2(order));
      NextMultiple(2 * h, Pow2(order));
    } else {
      MulMono(k + 1, 2 * h, Pow2(order));
    }
    LeastBoundary(i + Pow2(order), u, i);
  }

  // What makes u the boundary at or after i
  ghost predicate IsBoundary(i: nat, u: nat) { Aligned(u, MAX_ORDER + 1) && i <= u < i + Pow2(MAX_ORDER + 1) }

  lemma OneBoundary(i: nat, u: nat, v: nat)
    requires IsBoundary(i, u) && IsBoundary(i, v)
    ensures u == v
  {
    var p := Pow2(MAX_ORDER + 1);
    var a := AlignedIsMultiple(u, MAX_ORDER + 1);
    var b := AlignedIsMultiple(v, MAX_ORDER + 1);
    NextMultiple(a, p);
    NextMultiple(b, p);
    if a < b {
      MulMono(a + 1, b, p);
    } else if b < a {
      MulMono(b + 1, a, p);
    }
  }

  lemma BoundaryIs(i: nat)
    ensures IsBoundary(i, NextBoundary(i))
  {
    BoundaryIsAligned(i);
  }

  // The boundary is the least one at or after the index.
  lemma LeastBoundary(j: nat, u: nat, i: nat)
    requires i <= j <= u == NextBoundary(i)
    ensures NextBoundary(j) == u
  {
    BoundaryIs(i);
    BoundaryIs(j);
    OneBoundary(j, u, NextBoundary(j));
  }

  lemma BoundaryStays(i: nat, order: nat, u: nat, p: nat)
    requires p == Pow2(order) && Aligned(i, order) && And(i, p) != 0 && order <= MAX_ORDER && IsBoundary(i, u)
    ensures IsBoundary(i + p, u)
  {
    BoundaryIs(i);
    OneBoundary(i, u, NextBoundary(i));
    SameBoundary(i, order);
    BoundaryIs(i + p);
  }

  // One turn of the loop
  lemma FrontNext(i: nat, order: nat, u: nat)
    requires Aligned(i, order) && order <= MAX_ORDER && IsBoundary(i, u)
    ensures Aligned(NextIndex(i, order), order + 1) && IsBoundary(NextIndex(i, order), u)
  {
    AlignedBit(i, order);
    if And(i, Pow2(order)) != 0 {
      BoundaryStays(i, order, u, Pow2(order));
    }
  }

  lemma {:induction false} FrontHoldsTo(i: nat, n: nat, order: nat, u: nat)
    requires Aligned(i, order) && order <= MAX_ORDER + 1 && IsBoundary(i, u)
    ensures FrontHolds(i, n, order) <==> i + n < u + Pow2(MAX_ORDER + 1)
    decreases MAX_ORDER + 1 - order
  {
    if n < Pow2(order) {
      Pow2Mono(order, MAX_ORDER + 1);
    } else if order > MAX_ORDER {
      OneBoundary(i, u, i);
    } else {
      FrontNext(i, order, u);
      FrontHoldsTo(NextIndex(i, order), n - (NextIndex(i, order) - i), order + 1, u);
    }
  }

  lemma FrontHoldsFrom(i: nat, n: nat, order: nat)
    requires Aligned(i, order) && order <= MAX_ORDER + 1
    ensures FrontHolds(i, n, order) <==> Freeable(i, n)
  {
    BoundaryIs(i);
    FrontHoldsTo(i, n, order, NextBoundary(i));
  }

  lemma FrontTurn(i: nat, end: nat, order: nat)
    requires Aligned(i, order) && order <= MAX_ORDER + 1 && i + Pow2(order) <= end && Freeable(i, end - i)
    ensures order <= MAX_ORDER
    ensures var next := if And(i, Pow2(order)) != 0 then i + Pow2(order) else i;
            Aligned(next, order + 1) && Freeable(next, end - next)
  {
    FrontHoldsFrom(i, end - i, order);
    AlignedBit(i, order);
    if And(i, Pow2(order)) != 0 {
      SameBoundary(i, order);
    }
  }

  // The assertion in buddy_free_pages holds for exactly these ranges, which include every one shorter than 2048 pages.
  lemma AssertionHolds(i: nat, n: nat)
    ensures FrontHolds(i, n, 0) <==> Freeable(i, n)
  {
    FrontHoldsFrom(i, n, 0);
  }

  // Freeing 2048 pages from an aligned index trips it.
  lemma AssertionFails()
    ensures !FrontHolds(0, 2048, 0)
  {
    assert Pow2(MAX_ORDER + 1) == 2048;
    AssertionHolds(0, 2048);
    BoundaryIs(0);
    OneBoundary(0, NextBoundary(0), 0);
  }

  predicate InZone(zones: seq<nat>, p: Pg) { p.z < |zones| && p.i < zones[p.z] }

  lemma LevelAdd(lists: seq<seq<Pg>>, nr: seq<nat>, head: map<Pg, nat>, order: nat, page: Pg, o: nat)
    requires order < |lists| && order < |nr| && page !in head
    requires LevelOk(lists, nr, head, order) && LevelOk(lists, nr, head, o)
    ensures LevelOk(lists[order := [page] + lists[order]], nr[order := nr[order] + 1], head[page := order], o)
  {
    ListAdd(lists[order], nr[order], head, order, page);
  }

  lemma Added(free: set<Pg>, head: map<Pg, nat>, nr: seq<nat>, b: Blk)
    requires Canonical(free, head) && IsBusy(free, b) && b.o <= MAX_ORDER && |nr| == MAX_ORDER + 1 && NrPages(nr, 0) == |free|
    ensures Pg(b.z, b.Lo()) !in head && NrPages(nr[b.o := nr[b.o] + 1], 0) == |free + Pages(b)|
  {
    PagesSpan(b);
    assert free !! Pages(b);
    BusyIsNoHead(free, head, b);
    NrPagesInc(nr, b.o, 0);
  }

  lemma ZoneAdd(free: set<Pg>, zones: seq<nat>, b: Blk)
    requires (forall p {:trigger InZone(zones, p)} :: p in free ==> InZone(zones, p)) && b.z < |zones| && b.Hi() <= zones[b.z]
    ensures forall p {:trigger InZone(zones, p)} :: p in free + Pages(b) ==> InZone(zones, p)
  {
    PagesSpan(b);
  }

  class Allocator {
    var zones: seq<nat>
    var lists: seq<seq<Pg>>
    var nr: seq<nat>
    var head: map<Pg, nat>
    ghost var free: set<Pg>

    ghost predicate Valid()
      reads this
    {
      |lists| == MAX_ORDER + 1 && |nr| == MAX_ORDER + 1
      && Canonical(free, head)
      && (forall o {:trigger LevelOk(lists, nr, head, o)} :: 0 <= o <= MAX_ORDER ==> LevelOk(lists, nr, head, o))
      && (forall p {:trigger InZone(zones, p)} :: p in free ==> InZone(zones, p))
      && NrPages(nr, 0) == |free|
    }

    // buddy_init
    constructor ()
      ensures Valid() && free == {} && zones == [] && head == map[]
    {
      zones, head, free := [], map[], {};
      lists := seq(MAX_ORDER + 1, _ => []);
      nr := seq(MAX_ORDER + 1, _ => 0);
      new;
      NoPages(nr, 0);
      assert forall o :: 0 <= o <= MAX_ORDER ==> LevelOk(lists, nr, head, o);
    }

    // buddy_init_memmap: a new zone of n pages, as blocks of decreasing order
    method InitMemmap(n: nat)
      requires Valid() && n > 0 && |zones| < MAX_ZONE_NUM
      modifies this
      ensures Valid() && zones == old(zones) + [n] && free == old(free) + Span(|old(zones)|, 0, n)
    {
      var z := |zones|;
      zones := zones + [n];
      forall p | p in free ensures InZone(zones, p) && p.z < z {
        assert InZone(old(zones), p);
      }
      var p: nat, order: nat := 0, MAX_ORDER;
      assert Span(z, 0, 0) == {};
      while p != n
        invariant Valid() && p <= n && order <= MAX_ORDER && Aligned(p, order) && zones == old(zones) + [n]
        invariant order < MAX_ORDER && n - p >= Pow2(order) ==> Aligned(p, order + 1)
        invariant order < MAX_ORDER ==> n - p < 2 * Pow2(order)
        invariant free == old(free) + Span(z, 0, p)
        decreases order, n - p
      {
        if n - p >= Pow2(order) {
          p := InitBlock(z, p, order, old(free));
        } else {
          AlignedLower(p, order - 1);
          order := order - 1;
        }
      }
    }

    // One block of a new zone
    method InitBlock(z: nat, p: nat, order: nat, ghost was: set<Pg>) returns (next: nat)
      requires Valid() && z == |zones| - 1 && order <= MAX_ORDER && Aligned(p, order) && p + Pow2(order) <= zones[z]
      requires order < MAX_ORDER ==> Aligned(p, order + 1)
      requires free == was + Span(z, 0, p) && forall q :: q in was ==> q.z < z
      modifies this`lists, this`nr, this`head, this`free
      ensures Valid() && next == p + Pow2(order) && free == was + Span(z, 0, next) && Aligned(next, order)
    {
      next := p + Pow2(order);
      ghost var b := NewBlock(was, z, p, next, order);
      AddBlock(Pg(z, p), order, b);
    }

    // page->property = order, SetPageProperty(page), nr_free(order) ++, list_add(&free_list(order), page)
    method AddBlock(page: Pg, order: nat, ghost b: Blk)
      requires Valid() && order == b.o <= MAX_ORDER && page == Pg(b.z, b.Lo())
      requires IsBusy(free, b) && (b.o < MAX_ORDER ==> !IsFree(free + Pages(b), b.Parent()))
      requires b.z < |zones| && b.Hi() <= zones[b.z]
      modifies this`lists, this`nr, this`head, this`free
      ensures Valid() && free == old(free) + Pages(b)
      ensures order < |old(lists)| && lists == old(lists)[order := [page] + old(lists)[order]]
    {
      AddCanonical(free, head, b);
      Added(free, head, nr, b);
      assert LevelOk(lists, nr, head, order);
      ZoneAdd(free, zones, b);
      free := free + Pages(b);
      head := head[page := order];
      nr := nr[order := nr[order] + 1];
      lists := lists[order := [page] + lists[order]];
      forall o | 0 <= o <= MAX_ORDER ensures LevelOk(lists, nr, head, o) {
        assert LevelOk(old(lists), old(nr), old(head), o);
        LevelAdd(old(lists), old(nr), old(head), order, page, o);
      }
    }

    // nr_free(order) --, list_del(page), ClearPageProperty(page)
    method TakeBlock(page: Pg, order: nat, ghost b: Blk)
      requires Valid() && order == b.o && page == Pg(b.z, b.Lo()) && IsHead(head, b) && order <= MAX_ORDER
      modifies this`lists, this`nr, this`head, this`free
      ensures Valid() && free == old(free) - Pages(b) && IsMax(old(free), b)
    {
      assert IsMax(free, b);
      RemoveCanonical(free, head, b);
      PagesSpan(b);
      assert Pages(b) <= free;
      assert LevelOk(lists, nr, head, order);
      DelSpec(lists[order], page);
      NrPagesInc(nr[order := nr[order] - 1], order, 0);
      assert nr[order := nr[order] - 1][order := nr[order]] == nr;
      free := free - Pages(b);
      head := head - {page};
      nr := nr[order := nr[order] - 1];
      lists := lists[order := Del(lists[order], page)];
      forall o | 0 <= o <= MAX_ORDER ensures LevelOk(lists, nr, head, o) {
        assert LevelOk(old(lists), old(nr), old(head), o);
      }
      forall p | p in free ensures InZone(zones, p) {
        assert InZone(zones, p);
      }
    }

    // The split loop of buddy_alloc_pages_sub: upper halves go back to the lists
    method SplitDown(p: Pg, from: nat, order: nat, ghost whole: Blk, ghost was: set<Pg>) returns (ghost b: Blk)
      requires Valid() && order <= from == whole.o <= MAX_ORDER && p == Pg(whole.z, whole.Lo())
      requires whole.z < |zones| && whole.Hi() <= zones[whole.z] && Pages(whole) <= was && free == was - Pages(whole)
      modifies this`lists, this`nr, this`head, this`free
      ensures Valid() && b.o == order && p == Pg(b.z, b.Lo()) && Pages(b) <= was && free == was - Pages(b)
    {
      var cur := from;
      b := whole;
      while cur > order
        invariant Valid() && order <= cur == b.o <= MAX_ORDER && p == Pg(b.z, b.Lo())
        invariant b.z < |zones| && b.Hi() <= zones[b.z] && Pages(b) <= was && free == was - Pages(b)
      {
        cur := cur - 1;
        ghost var low, high := Blk(b.z, 2 * b.k, cur), Blk(b.z, 2 * b.k + 1, cur);
        SplitBlock(free, b, low, high, was);
        AddBlock(Pg(p.z, p.i + Pow2(cur)), cur, high);
        b := low;
      }
    }

    // buddy_alloc_pages_sub: the block is the lowest part of a smallest block that is large enough. NULL comes exactly if no
    // aligned block of that order is wholly free.
    method AllocSub(order: nat) returns (page: Option<Pg>, ghost b: Blk)
      requires Valid() && order <= MAX_ORDER
      modifies this`lists, this`nr, this`head, this`free
      ensures Valid() && (page.None? <==> NoneFree(old(free), order))
      ensures page.None? ==> free == old(free) && head == old(head)
      ensures page.Some? ==> b.o == order && page.value == Pg(b.z, b.Lo()) && Pages(b) <= old(free)
                             && free == old(free) - Pages(b) && Foremost(old(lists), old(head), order, page.value)
    {
      var cur := order;
      while cur <= MAX_ORDER && lists[cur] == []
        invariant order <= cur <= MAX_ORDER + 1
        invariant forall o :: order <= o < cur ==> lists[o] == []
      {
        cur := cur + 1;
      }
      b := Blk(0, 0, 0);
      if cur > MAX_ORDER {
        forall c: Blk | c.o == order ensures !IsFree(free, c) {
          if IsFree(free, c) {
            var o := ListNotEmpty(free, head, lists, nr, c);
          }
        }
        return None, b;
      }
      var p := lists[cur][0];
      FirstIsBest(lists, nr, head, order, cur);
      assert LevelOk(lists, nr, head, cur);
      b := HeadIsFree(free, head, p);
      FreeInZone(free, zones, b);
      TakeBlock(p, cur, b);
      b := SplitDown(p, cur, order, b, old(free));
      WasFree(old(free), b);
      page := Some(p);
    }

    // page_is_buddy: a page of the zone that heads a free block of that order
    predicate PageIsBuddy(page: Pg, order: nat)
      reads this
    {
      InZone(zones, page) && page in head && head[page] == order
    }

    // buddy_free_pages_sub
    method FreeSub(base: Pg, order0: nat, ghost b0: Blk)
      requires Valid() && order0 == b0.o <= MAX_ORDER && base == Pg(b0.z, b0.Lo())
      requires b0.z < |zones| && b0.Hi() <= zones[b0.z] && IsBusy(free, b0)
      modifies this`lists, this`nr, this`head, this`free
      ensures Valid() && free == old(free) + Pages(b0) && ListedFirst(lists, base)
    {
      // none of the pages heads a free block
      BusyIsNoHead(free, head, b0);
      var order, idx := order0, base.i;
      ghost var b := b0;
      var merging := true;
      while order < MAX_ORDER && merging
        invariant Valid() && order == b.o <= MAX_ORDER && idx == b.Lo() && b.z == b0.z && idx <= base.i < b.Hi()
        invariant b.Hi() <= zones[b.z] && IsBusy(free, b) && free + Pages(b) == old(free) + Pages(b0)
        invariant !merging ==> !IsHead(head, b.Buddy())
        decreases MAX_ORDER - order, merging
      {
        BuddyByXor(b);
        ParentByAnd(b);
        var buddyIdx := Xor(idx, Pow2(order));
        var buddy := Pg(base.z, buddyIdx);
        if !PageIsBuddy(buddy, order) {
          assert !IsHead(head, b.Buddy()) by {
            if IsHead(head, b.Buddy()) {
              HeadInZone(free, head, zones, b.Buddy());
            }
          }
          merging := false;
        } else {
          assert IsHead(head, b.Buddy());
          MergeBlock(free, zones, b);
          TakeBlock(buddy, order, b.Buddy());
          idx := And(idx, buddyIdx);
          order := order + 1;
          b := b.Parent();
        }
      }
      Unmergeable(free, head, b);
      AddBlock(Pg(base.z, idx), order, b);
      assert Around(lists[order][0], order, base);
    }

    // One piece of a range being freed: 2^order pages from an aligned base
    method FreePiece(z: nat, i: nat, order: nat, ghost i0: nat, ghost was: set<Pg>) returns (next: nat)
      requires Valid() && order <= MAX_ORDER && Aligned(i, order) && i0 <= i
      requires z < |zones| && i + Pow2(order) <= zones[z]
      requires Away(was, z, i, i + Pow2(order)) && Plus(free, was, z, i0, i)
      modifies this`lists, this`nr, this`head, this`free
      ensures Valid() && next == i + Pow2(order) && Plus(free, was, z, i0, next)
    {
      ghost var b := PieceBlock(z, i, order, i0, was, free);
      next := i + Pow2(order);
      FreeSub(Pg(z, i), order, b);
    }

    // buddy_free_pages, for a range none of whose pages is free and for which its assertion holds
    method FreePages(base: Pg, n: nat)
      requires Valid() && 0 < n && Freeable(base.i, n) && base.z < |zones| && base.i + n <= zones[base.z]
      requires Away(free, base.z, base.i, base.i + n)
      modifies this`lists, this`nr, this`head, this`free
      ensures Valid() && Plus(free, old(free), base.z, base.i, base.i + n)
    {
      if n == 1 {
        FreeOne(base);
      } else {
        FreeRange(base.z, base.i, base.i + n);
      }
    }

    method FreeOne(base: Pg)
      requires Valid() && InZone(zones, base) && Away(free, base.z, base.i, base.i + 1)
      modifies this`lists, this`nr, this`head, this`free
      ensures Valid() && Plus(free, old(free), base.z, base.i, base.i + 1)
    {
      NothingYet(free, base.z, base.i);
      var order := 0;
      assert Aligned(base.i, order) && Pow2(order) == 1;
      var _ := FreePiece(base.z, base.i, order, base.i, old(free));
    }

    // The two loops of buddy_free_pages
    method FreeRange(z: nat, i0: nat, end: nat)
      requires Valid() && i0 < end && Freeable(i0, end - i0) && z < |zones| && end <= zones[z] && Away(free, z, i0, end)
      modifies this`lists, this`nr, this`head, this`free
      ensures Valid() && Plus(free, old(free), z, i0, end)
    {
      NothingYet(free, z, i0);
      var i, order := FreeFront(z, i0, end, old(free));
      FreeTail(z, i, end, order, i0, old(free));
    }

    // buddy_alloc_pages: exactly n pages, from a multiple of the least power of two that holds them
    method AllocPages(n: nat) returns (page: Option<Pg>, ghost order: nat)
      requires Valid() && 0 < n <= Pow2(MAX_ORDER)
      modifies this`lists, this`nr, this`head, this`free
      ensures Valid() && order <= MAX_ORDER && n <= Pow2(order) && (order > 0 ==> Pow2(order - 1) < n)
      ensures page.None? <==> NoneFree(old(free), order)
      ensures page.None? ==> free == old(free) && head == old(head)
      ensures page.Some? ==> var p := page.value;
                             Aligned(p.i, order) && InZone(zones, p) && p.i + n <= zones[p.z]
                             && Minus(free, old(free), p.z, p.i, p.i + n) && Foremost(old(lists), old(head), order, p)
    {
      var o := GetOrder(n);
      order := o;
      page := AllocPart(o, n);
    }

    // The first n pages of a block; the others go back.
    method AllocPart(order: nat, n: nat) returns (page: Option<Pg>)
      requires Valid() && order <= MAX_ORDER && 0 < n <= Pow2(order)
      modifies this`lists, this`nr, this`head, this`free
      ensures Valid()
      ensures page.None? <==> NoneFree(old(free), order)
      ensures page.None? ==> free == old(free) && head == old(head)
      ensures page.Some? ==> var p := page.value;
                             Aligned(p.i, order) && InZone(zones, p) && p.i + n <= zones[p.z]
                             && Minus(free, old(free), p.z, p.i, p.i + n) && Foremost(old(lists), old(head), order, p)
    {
      page := AllocAligned(order);
      if page.Some? {
        ReturnRest(page.value, n, order, old(free));
      }
    }

    // The pages of the block that buddy_alloc_pages_sub gives
    method AllocAligned(order: nat) returns (page: Option<Pg>)
      requires Valid() && order <= MAX_ORDER
      modifies this`lists, this`nr, this`head, this`free
      ensures Valid()
      ensures page.None? <==> NoneFree(old(free), order)
      ensures page.None? ==> free == old(free) && head == old(head)
      ensures page.Some? ==> var p := page.value;
                             Aligned(p.i, order) && InZone(zones, p) && p.i + Pow2(order) <= zones[p.z]
                             && Minus(free, old(free), p.z, p.i, p.i + Pow2(order)) && Foremost(old(lists), old(head), order, p)
    {
      ghost var b;
      page, b := AllocSub(order);
      if page.Some? {
        TakenBlock(old(free), zones, b, page.value, page.value.i + Pow2(order));
      }
    }

    // if (n != order_size) free_pages(page + n, order_size - n)
    method ReturnRest(p: Pg, n: nat, order: nat, ghost was: set<Pg>)
      requires Valid() && 0 < n <= Pow2(order) && order <= MAX_ORDER && p.z < |zones| && p.i + Pow2(order) <= zones[p.z]
      requires Minus(free, was, p.z, p.i, p.i + Pow2(order))
      modifies this`lists, this`nr, this`head, this`free
      ensures Valid() && Minus(free, was, p.z, p.i, p.i + n)
    {
      if n != Pow2(order) {
        Pow2Mono(order, MAX_ORDER + 1);
        ShortFreeable(p.i + n, Pow2(order) - n);
        ghost var rest := free;
        PutBack(rest, was, p.z, p.i, p.i + n, p.i + Pow2(order));
        FreePages(Pg(p.z, p.i + n), Pow2(order) - n);
      }
    }

    // Allocating and freeing again gives back the same blocks at every order.
    method AllocThenFree(n: nat) returns (page: Option<Pg>)
      requires Valid() && 0 < n <= Pow2(MAX_ORDER)
      modifies this`lists, this`nr, this`head, this`free
      ensures Valid() && free == old(free) && head == old(head)
    {
      ghost var order;
      page, order := AllocPages(n);
      if page.Some? {
        ShortFreeable(page.value.i, n);
        FreePages(page.value, n);
        assert free == old(free);
        CanonicalIsUnique(free, old(head), head);
      }
    }

    // buddy_nr_free_pages
    method NrFreePages() returns (ret: nat)
      requires Valid()
      ensures ret == |free|
    {
      var o: nat := 0;
      ret := 0;
      while o <= MAX_ORDER
        invariant o <= MAX_ORDER + 1 && ret + NrPages(nr, o) == NrPages(nr, 0)
      {
        ret := ret + nr[o] * Pow2(o);
        o := o + 1;
      }
    }

    // The first loop of buddy_free_pages: pieces of increasing order, until the index is aligned as far as it matters
    method FreeFront(z: nat, i0: nat, end: nat, ghost was: set<Pg>) returns (i: nat, order: nat)
      requires Valid() && i0 < end && Freeable(i0, end - i0) && z < |zones| && end <= zones[z]
      requires Plus(free, was, z, i0, i0) && Away(was, z, i0, end)
      modifies this`lists, this`nr, this`head, this`free
      ensures Valid() && i0 <= i <= end && Plus(free, was, z, i0, i)
      ensures order <= MAX_ORDER + 1 && Aligned(i, order) && end - i < Pow2(order)
    {
      i, order := i0, 0;
      while end - i >= Pow2(order)
        invariant Valid() && i0 <= i <= end && Plus(free, was, z, i0, i)
        invariant order <= MAX_ORDER + 1 && Aligned(i, order) && Freeable(i, end - i)
        decreases MAX_ORDER + 1 - order
      {
        i := FreeBit(z, i, end, order, i0, was);
        order := order + 1;
      }
    }

    // One turn of that loop: a piece of this order, if the index has the bit
    method FreeBit(z: nat, i1: nat, end: nat, order: nat, ghost i0: nat, ghost was: set<Pg>) returns (i: nat)
      requires Valid() && order <= MAX_ORDER + 1 && Aligned(i1, order)
      requires i0 <= i1 && i1 + Pow2(order) <= end && Freeable(i1, end - i1)
      requires z < |zones| && end <= zones[z] && Away(was, z, i0, end) && Plus(free, was, z, i0, i1)
      modifies this`lists, this`nr, this`head, this`free
      ensures Valid() && order <= MAX_ORDER && i1 <= i <= end && Plus(free, was, z, i0, i)
      ensures Aligned(i, order + 1) && Freeable(i, end - i)
    {
      FrontTurn(i1, end, order);
      i := i1;
      if And(i, Pow2(order)) != 0 {
        AwayPart(was, z, i0, end, i, i + Pow2(order));
        i := FreePiece(z, i, order, i0, was);
      }
    }

    // The second loop of buddy_free_pages: pieces of decreasing order
    method FreeTail(z: nat, i1: nat, end: nat, order1: nat, ghost i0: nat, ghost was: set<Pg>)
      requires Valid() && order1 <= MAX_ORDER + 1 && Aligned(i1, order1) && i0 <= i1 <= end && end - i1 < Pow2(order1)
      requires z < |zones| && end <= zones[z] && Away(was, z, i0, end) && Plus(free, was, z, i0, i1)
      modifies this`lists, this`nr, this`head, this`free
      ensures Valid() && Plus(free, was, z, i0, end)
    {
      var i: nat, order: nat := i1, order1;
      while i != end
        invariant Valid() && order <= MAX_ORDER + 1 && Aligned(i, order) && i0 <= i <= end && end - i < Pow2(order)
        invariant Plus(free, was, z, i0, i)
        decreases end - i
      {
        i, order := FreeNext(z, i, end, order, i0, was);
      }
    }

    // One turn of that loop: the largest aligned piece that fits
    method FreeNext(z: nat, i1: nat, end: nat, order1: nat, ghost i0: nat, ghost was: set<Pg>) returns (i: nat, order: nat)
      requires Valid() && order1 <= MAX_ORDER + 1 && Aligned(i1, order1) && i0 <= i1 < end && end - i1 < Pow2(order1)
      requires z < |zones| && end <= zones[z] && Away(was, z, i0, end) && Plus(free, was, z, i0, i1)
      modifies this`lists, this`nr, this`head, this`free
      ensures Valid() && order <= MAX_ORDER && Aligned(i, order) && i1 < i <= end && end - i < Pow2(order)
      ensures Plus(free, was, z, i0, i)
    {
      order := Shrink(i1, end - i1, order1);
      AlignedNext(i1, order);
      AwayPart(was, z, i0, end, i1, i1 + Pow2(order));
      i := FreePiece(z, i1, order, i0, was);
    }
  }

  // The block that an aligned piece is
  lemma PieceBlock(z: nat, i: nat, order: nat, i0: nat, was: set<Pg>, free: set<Pg>) returns (b: Blk)
    requires Aligned(i, order) && i0 <= i && Away(was, z, i, i + Pow2(order)) && Plus(free, was, z, i0, i)
    ensures b.z == z && b.o == order && b.Lo() == i && b.Hi() == i + Pow2(order) && IsBusy(free, b)
    ensures Plus(free + Pages(b), was, z, i0, i + Pow2(order))
  {
    b := AlignedBlock(z, i, order);
    PlusMore(free, was, z, i0, i, i + Pow2(order));
    PieceBusy(free, was, z, i0, i, i + Pow2(order));
  }

  lemma AlignedBlock(z: nat, i: nat, order: nat) returns (b: Blk)
    requires Aligned(i, order)
    ensures b.z == z && b.o == order && b.Lo() == i && b.Hi() == i + Pow2(order) && Pages(b) == Span(z, i, i + Pow2(order))
  {
    var k := AlignedIsMultiple(i, order);
    b := Blk(z, k, order);
    PagesSpan(b);
  }

  lemma PieceBusy(free: set<Pg>, was: set<Pg>, z: nat, lo: nat, mid: nat, hi: nat)
    requires lo <= mid <= hi && Plus(free, was, z, lo, mid) && Away(was, z, mid, hi)
    ensures forall j: nat {:trigger Pg(z, j)} :: mid <= j < hi ==> Pg(z, j) !in free
  {
    SpanSplit(z, lo, mid, hi);
    assert forall j: nat :: mid <= j < hi ==> Pg(z, j) in Span(z, mid, hi);
  }

  lemma PlusMore(free: set<Pg>, was: set<Pg>, z: nat, lo: nat, mid: nat, hi: nat)
    requires lo <= mid <= hi && Plus(free, was, z, lo, mid)
    ensures Plus(free + Span(z, mid, hi), was, z, lo, hi)
  {
    SpanSplit(z, lo, mid, hi);
  }

  // Of the pages [lo, hi) taken, those from mid on are given back.
  lemma PutBack(free: set<Pg>, was: set<Pg>, z: nat, lo: nat, mid: nat, hi: nat)
    requires lo <= mid <= hi && Minus(free, was, z, lo, hi)
    ensures Away(free, z, mid, hi) && Minus(free + Span(z, mid, hi), was, z, lo, mid)
  {
    SpanSplit(z, lo, mid, hi);
  }

  lemma NothingYet(was: set<Pg>, z: nat, i: nat)
    ensures Plus(was, was, z, i, i)
  {
  }

  // The lower half of its parent, if the index is aligned for the parent
  lemma LowerHalf(z: nat, p: nat, order: nat) returns (b: Blk)
    requires Aligned(p, order) && (order < MAX_ORDER ==> Aligned(p, order + 1)) && order <= MAX_ORDER
    ensures b.z == z && b.o == order && b.Lo() == p && Aligned(b.Hi(), order)
    ensures order < MAX_ORDER ==> b.Parent().Lo() <= b.Hi() < b.Parent().Hi()
  {
    AlignedNext(p, order);
    if order < MAX_ORDER {
      var h := AlignedIsMultiple(p, order + 1);
      MoveTwo(h, Pow2(order));
      b := Blk(z, 2 * h, order);
      Halves(b);
    } else {
      var k := AlignedIsMultiple(p, order);
      b := Blk(z, k, order);
    }
  }

  // The next block of a zone whose later pages are not free yet
  lemma NewBlock(was: set<Pg>, z: nat, p: nat, next: nat, order: nat) returns (b: Blk)
    requires Aligned(p, order) && (order < MAX_ORDER ==> Aligned(p, order + 1)) && order <= MAX_ORDER
    requires next == p + Pow2(order) && forall q :: q in was ==> q.z < z
    ensures b.z == z && b.o == order && b.Lo() == p && b.Hi() == next && Aligned(next, order)
    ensures IsBusy(was + Span(z, 0, p), b)
    ensures b.o < MAX_ORDER ==> !IsFree(was + Span(z, 0, p) + Pages(b), b.Parent())
    ensures was + Span(z, 0, p) + Pages(b) == was + Span(z, 0, next)
  {
    b := LowerHalf(z, p, order);
    PagesSpan(b);
    SpanSplit(z, 0, p, next);
    AfterSpan(was, z, p, next);
    if b.o < MAX_ORDER {
      assert Pg(b.z, b.Hi()) !in was + Span(z, 0, next);
    }
  }

  lemma AfterSpan(was: set<Pg>, z: nat, p: nat, next: nat)
    requires p <= next && forall q :: q in was ==> q.z < z
    ensures forall j: nat {:trigger Pg(z, j)} :: p <= j ==> Pg(z, j) !in was + Span(z, 0, p)
    ensures forall j: nat {:trigger Pg(z, j)} :: next <= j ==> Pg(z, j) !in was + Span(z, 0, next)
  {
  }

  // while (n < order_size) order --, order_size >>= 1
  method Shrink(i: nat, n: nat, from: nat) returns (order: nat)
    requires 0 < n < Pow2(from) && Aligned(i, from)
    ensures order < from && Pow2(order) <= n < 2 * Pow2(order) && Aligned(i, order)
  {
    order := from;
    while n < Pow2(order)
      invariant order <= from && Aligned(i, order) && n < 2 * Pow2(order)
      invariant order == from ==> n < Pow2(order)
      decreases order
    {
      AlignedLower(i, order - 1);
      order := order - 1;
    }
  }

  // getorder: the least order whose blocks hold n pages
  method GetOrder(n: nat) returns (order: nat)
    requires 0 < n <= Pow2(MAX_ORDER)
    ensures order <= MAX_ORDER && n <= Pow2(order) && (order > 0 ==> Pow2(order - 1) < n)
  {
    order := 0;
    while n > Pow2(order)
      invariant order <= MAX_ORDER && (order > 0 ==> Pow2(order - 1) < n)
      decreases MAX_ORDER - order
    {
      assert order < MAX_ORDER;
      order := order + 1;
    }
  }

  lemma HeadInZone(free: set<Pg>, head: map<Pg, nat>, zones: seq<nat>, h: Blk)
    requires Canonical(free, head) && IsHead(head, h) && h.o <= MAX_ORDER
    requires forall p {:trigger InZone(zones, p)} :: p in free ==> InZone(zones, p)
    ensures InZone(zones, Pg(h.z, h.Lo())) && h.Hi() <= zones[h.z] && IsMax(free, h)
  {
    assert IsMax(free, h);
    FreeInZone(free, zones, h);
  }

  // Taking the free buddy out and merging: the parent is in hand, and the same pages are accounted for.
  lemma MergeBlock(free: set<Pg>, zones: seq<nat>, b: Blk)
    requires IsBusy(free, b) && IsFree(free, b.Buddy()) && b.z < |zones| && b.Hi() <= zones[b.z]
    requires forall p {:trigger InZone(zones, p)} :: p in free ==> InZone(zones, p)
    ensures IsBusy(free - Pages(b.Buddy()), b.Parent()) && b.Parent().Hi() <= zones[b.z]
    ensures free - Pages(b.Buddy()) + Pages(b.Parent()) == free + Pages(b)
    ensures b.Parent().Lo() <= b.Lo() && b.Hi() <= b.Parent().Hi()
  {
    Halves(b);
    FreeInZone(free, zones, b.Buddy());
    assert Pages(b.Parent()) == Pages(b) + Pages(b.Buddy());
  }

  // A block whose buddy heads no free block cannot be merged.
  lemma Unmergeable(free: set<Pg>, head: map<Pg, nat>, b: Blk)
    requires Canonical(free, head) && b.o <= MAX_ORDER && IsBusy(free, b) && (b.o < MAX_ORDER ==> !IsHead(head, b.Buddy()))
    ensures b.o < MAX_ORDER ==> !IsFree(free + Pages(b), b.Parent())
  {
    if b.o < MAX_ORDER {
      Halves(b);
      NotFreeAndBusy(free, b.Parent(), b);
      assert IsMax(free, b.Buddy()) <==> IsFree(free, b.Buddy());
      if IsFree(free + Pages(b), b.Parent()) {
        FreeWithin(free + Pages(b), b.Buddy(), b.Parent());
        ApartUntouched(free, b.Buddy(), b);
      }
    }
  }

  // A free block has a list of its order or above that is not empty.
  lemma ListNotEmpty(free: set<Pg>, head: map<Pg, nat>, lists: seq<seq<Pg>>, nr: seq<nat>, c: Blk) returns (o: nat)
    requires Canonical(free, head) && c.o <= MAX_ORDER && IsFree(free, c) && |lists| == MAX_ORDER + 1
    requires forall o :: 0 <= o <= MAX_ORDER ==> LevelOk(lists, nr, head, o)
    ensures c.o <= o <= MAX_ORDER && lists[o] != []
  {
    var h := SomeHead(free, head, c);
    o := h.o;
    assert LevelOk(lists, nr, head, o);
    assert Pg(h.z, h.Lo()) in lists[o];
  }

  lemma FreeInZone(free: set<Pg>, zones: seq<nat>, b: Blk)
    requires IsFree(free, b) && forall p {:trigger InZone(zones, p)} :: p in free ==> InZone(zones, p)
    ensures b.z < |zones| && b.Hi() <= zones[b.z] && Pages(b) <= free
  {
    assert Pg(b.z, b.Hi() - 1) in free;
    assert InZone(zones, Pg(b.z, b.Hi() - 1));
  }

  // What an allocated block gives to a request for its first pages, up to mid
  lemma WasFree(free: set<Pg>, b: Blk)
    requires Pages(b) <= free
    ensures IsFree(free, b)
  {
    assert forall j: nat :: b.Lo() <= j < b.Hi() ==> Pg(b.z, j) in Pages(b);
  }

  lemma TakenBlock(was: set<Pg>, zones: seq<nat>, b: Blk, p: Pg, hi: nat)
    requires Pages(b) <= was && p == Pg(b.z, b.Lo()) && hi == p.i + Pow2(b.o)
    requires forall p {:trigger InZone(zones, p)} :: p in was ==> InZone(zones, p)
    ensures Aligned(p.i, b.o) && InZone(zones, p) && hi <= zones[p.z]
    ensures Minus(was - Pages(b), was, p.z, p.i, hi)
  {
    PagesSpan(b);
    WasFree(was, b);
    FreeInZone(was, zones, b);
    MultipleIsAligned(b.k, b.o);
  }

  // The halves of a block in hand: the upper one may go back, the lower one stays in hand.
  lemma SplitBlock(free: set<Pg>, b: Blk, low: Blk, high: Blk, was: set<Pg>)
    requires b.o > 0 && low == Blk(b.z, 2 * b.k, b.o - 1) && high == Blk(b.z, 2 * b.k + 1, b.o - 1)
    requires free == was - Pages(b) && Pages(b) <= was
    ensures high.Lo() == b.Lo() + Pow2(high.o) && low.Lo() == b.Lo() && Within(low, b) && Within(high, b)
    ensures IsBusy(free, high) && !IsFree(free + Pages(high), high.Parent())
    ensures free + Pages(high) == was - Pages(low)
  {
    Halves(low);
    Halves(high);
    assert low.Buddy() == high && high.Parent() == b;
    assert Pages(b) == Pages(low) + Pages(high);
    assert Pg(b.z, low.Lo()) in Pages(low) && Pg(b.z, low.Lo()) !in free + Pages(high);
  }

  lemma {:induction false} NoPages(nr: seq<nat>, o: nat)
    requires o <= |nr| && forall i :: 0 <= i < |nr| ==> nr[i] == 0
    ensures NrPages(nr, o) == 0
    decreases |nr| - o
  {
    if o < |nr| {
      NoPages(nr, o + 1);
    }
  }
}