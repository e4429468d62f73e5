/**
 kmalloc and kfree (kern/mm/slab.c) over the buddy allocator.
 */
module SlabAllocator {
  import opened Options
  import opened Arithmetic
  import opened Lists
  import opened Units
  import opened BuddyBlocks
  import opened SlabLayout
  import opened SlabState
  import D = Dyadic
  import Pmm = BuddyAllocator

  // The pages of the slabs are not free, and lie in the zones.
  ghost predicate Settled(free: set<Pg>, zones: seq<nat>, owner: map<Pg, Pg>) {
    forall p {:trigger p in owner} :: p in owner ==> p !in free && Pmm.InZone(zones, p)
  }

  // p is free or a slab's.
  predicate AtHome(free: set<Pg>, owner: map<Pg, Pg>, p: Pg) { p in free || p in owner }

  // The free pages and the slabs' pages together are the same as before.
  ghost predicate SameHome(free: set<Pg>, owner: map<Pg, Pg>, free': set<Pg>, owner': map<Pg, Pg>) {
    forall p {:trigger AtHome(free', owner', p)} :: AtHome(free, owner, p) <==> AtHome(free', owner', p)
  }

  // The pages of a new slab were free and no longer are.
  ghost predicate TakenFrom(free: set<Pg>, rest: set<Pg>, b: Pg, order: nat) {
    Pmm.Span(b.z, b.i, b.i + D.Pow2(order)) <= free && rest == free - Pmm.Span(b.z, b.i, b.i + D.Pow2(order))
  }

  predicate Zoned(zones: seq<nat>, b: Pg, order: nat) { b.z < |zones| && b.i + D.Pow2(order) <= zones[b.z] }

  // Whatever was allocated stays what it was, where it was.
  ghost predicate Grown(s: State, g: Books, s': State, g': Books) {
    g'.users == g.users
    && (forall x {:trigger x in g.use} :: x in g.use ==> x in g'.use && g'.use[x] == g.use[x])
    && (forall b {:trigger b in s.slabs} :: b in s.slabs ==> b in s'.slabs && s'.slabs[b].cache == s.slabs[b].cache)
  }

  // What the caller of a free holds stays, but for the object freed.
  ghost predicate Kept(s: State, g: Books, s': State, g': Books, o: Obj) {
    forall x {:trigger x in g.use} :: x in g.use && !g.use[x].Control? && x != o ==>
      x in g'.use && g'.use[x] == g.use[x]
      && x.base in s.slabs && x.base in s'.slabs && s'.slabs[x.base].cache == s.slabs[x.base].cache
  }

  // Memory is short: no aligned block for a slab is free, or its control block must come from another cache which has no
  // free object, and no page would be left for that one to grow.
  ghost predicate CannotGrow(conf: Confs, s: State, free: set<Pg>, c: nat)
    requires c < |conf|
  {
    Pmm.NoneFree(free, conf[c].order)
    || (conf[c].offSlab && AllFull(s, conf[c].control) && |free| <= D.Pow2(conf[c].order))
  }

  // No slab of the cache has a free object.
  predicate AllFull(s: State, c: nat) { c < |s.notfull| && s.notfull[c] == [] }

  ghost predicate Exhausted(conf: Confs, s: State, free: set<Pg>, c: nat)
    requires c < |conf|
  {
    AllFull(s, c) && CannotGrow(conf, s, free, c)
  }

  // A slab is new only in the cache that was asked or in the cache of its control blocks, only if that had no free object,
  // and only one.
  ghost predicate NewAsNeeded(conf: Confs, s: State, s': State, c: nat)
    requires c < |conf|
  {
    (forall b {:trigger b in s'.slabs} :: b in s'.slabs && b !in s.slabs ==>
       var k := s'.slabs[b].cache; (k == c || (conf[c].offSlab && k == conf[c].control)) && AllFull(s, k))
    && (forall b, d {:trigger b in s'.slabs, d in s'.slabs} ::
          b in s'.slabs && b !in s.slabs && d in s'.slabs && d !in s.slabs && s'.slabs[b].cache == s'.slabs[d].cache ==> b == d)
    && |s'.full| == |s.full| && |s'.notfull| == |s.notfull|
    && forall k :: k != c && !(conf[c].offSlab && k == conf[c].control) ==> SameLists(s, s', k)
  }

  predicate SameLists(s: State, s': State, k: int) {
    (0 <= k < |s.full| && k < |s'.full| ==> s'.full[k] == s.full[k])
    && (0 <= k < |s.notfull| && k < |s'.notfull| ==> s'.notfull[k] == s.notfull[k])
  }

  // The object taken is the first free one of the first slab that has any, and nothing grows; or it is the first of a new
  // slab. The slab leaves the list exactly if it is now on the full list.
  ghost predicate TakenAt(conf: Confs, s: State, s': State, c: nat, o: Obj)
    requires c < |conf|
  {
    NewAsNeeded(conf, s, s', c) && LeavesIfFull(s, s', c, o.base)
    && if AllFull(s, c) then o.base !in s.slabs && o.idx == 0
       else c < |s.notfull| && o.base == s.notfull[c][0] && o.base in s.slabs && o.idx == s.slabs[o.base].free
            && s'.slabs.Keys == s.slabs.Keys
  }

  predicate LeavesIfFull(s: State, s': State, c: nat, b: Pg) {
    c < |s.notfull| && c < |s'.notfull| && c < |s'.full|
    && var was := if AllFull(s, c) then [b] else s.notfull[c];
       s'.notfull[c] == if b in s'.full[c] then was[1..] else was
  }

  // The object freed is the first free one of its slab, which comes first on its list if it was full; or it was the last in
  // use and the slab is gone.
  ghost predicate GivenBack(s: State, s': State, o: Obj) {
    o.base in s.slabs
    && if s.slabs[o.base].inuse > 1 then
         s'.slabs.Keys == s.slabs.Keys && s'.slabs[o.base].free == o.idx && FrontIfFull(s, s', s.slabs[o.base].cache, o.base)
       else s'.slabs.Keys <= s.slabs.Keys - {o.base}
  }

  predicate FrontIfFull(s: State, s': State, c: nat, b: Pg) {
    c < |s.full| && c < |s.notfull| && c < |s'.notfull|
    && s'.notfull[c] == if b in s.full[c] then [b] + s.notfull[c] else s.notfull[c]
  }

  function Rank(c: Conf): nat { if c.offSlab then 1 else 0 }

  // ---------- loops over one slab ----------

  // slab_bufctl(slabp)[i] = i + 1, and BUFCTL_END in the last place
  method FillBufctl(num: nat) returns (ctl: seq<nat>)
    requires num > 0
    ensures ctl == FreshCtl(num)
  {
    ctl := seq(num, _ => 0);
    var i := 0;
    while i < num
      invariant 0 <= i <= num && |ctl| == num && forall k :: 0 <= k < i ==> ctl[k] == k + 1
    {
      ctl := ctl[i := i + 1];
      i := i + 1;
    }
    ctl := ctl[num - 1 := BUFCTL_END];
  }

  // SET_PAGE_CACHE, SET_PAGE_SLAB and SetPageSlab on every page of a slab
  method MarkPages(owner: map<Pg, Pg>, b: Pg, order: nat) returns (owner': map<Pg, Pg>)
    ensures owner' == owner + SlabPages(b, order)
  {
    owner' := owner;
    var i: nat := b.i;
    while i < b.i + D.Pow2(order)
      invariant b.i <= i <= b.i + D.Pow2(order)
      invariant owner' == owner + Marked(b, i)
    {
      MarkOne(owner, b, i);
      owner' := owner'[Pg(b.z, i) := b];
      i := i + 1;
    }
  }

  function Marked(b: Pg, i: nat): map<Pg, Pg> { map j | b.i <= j < i :: Pg(b.z, j) := b }

  lemma MarkOne(owner: map<Pg, Pg>, b: Pg, i: nat)
    requires b.i <= i
    ensures (owner + Marked(b, i))[Pg(b.z, i) := b] == owner + Marked(b, i + 1)
  {
    var n := i + 1;
    assert Marked(b, n) == Marked(b, i)[Pg(b.z, i) := b];
  }

  // ClearPageSlab on every page of a slab
  method ClearPages(owner: map<Pg, Pg>, b: Pg, order: nat) returns (owner': map<Pg, Pg>)
    requires forall j: nat :: b.i <= j < b.i + D.Pow2(order) ==> Pg(b.z, j) in owner
    ensures owner' == owner - SlabPages(b, order).Keys
  {
    owner' := owner;
    var i: nat := b.i;
    while i < b.i + D.Pow2(order)
      invariant b.i <= i <= b.i + D.Pow2(order)
      invariant owner' == map p | p in owner && !(p.z == b.z && b.i <= p.i < i) :: owner[p]
    {
      // assert(PageSlab(p))
      assert Pg(b.z, i) in owner';
      owner' := owner' - {Pg(b.z, i)};
      i := i + 1;
    }
  }

  // ---------- pages and objects ----------

  lemma PagesAreSpan(b: Pg, order: nat)
    ensures SlabPages(b, order).Keys == Pmm.Span(b.z, b.i, b.i + D.Pow2(order))
  {
  }

  // The pages of a slab are exactly those marked with it.
  lemma MarkedPages(conf: Confs, s: State, g: Books, b: Pg)
    requires Inv(conf, s, g, None) && b in s.slabs
    ensures s.slabs[b].cache < |conf|
    ensures forall p :: p in SlabPages(b, conf[s.slabs[b].cache].order) <==> p in s.owner && s.owner[p] == b
  {
    assert SlabAt(conf, s, g, b);
    forall p ensures p in SlabPages(b, conf[s.slabs[b].cache].order) <==> p in s.owner && s.owner[p] == b {
      assert OwnedAt(conf, s, b, p);
      assert p in s.owner ==> OwnerAt(conf, s, p);
      assert p == Pg(p.z, p.i);
    }
  }

  // A page that was free is no slab's first page.
  lemma FreshBase(conf: Confs, s: State, g: Books, b: Pg, free: set<Pg>, rest: set<Pg>, zones: seq<nat>, order: nat)
    requires Inv(conf, s, g, None) && Settled(free, zones, s.owner) && TakenFrom(free, rest, b, order)
    ensures b !in s.slabs
  {
    assert b == Pg(b.z, b.i) && b in Pmm.Span(b.z, b.i, b.i + D.Pow2(order));
    assert b in s.slabs ==> SlabAt(conf, s, g, b);
    assert OwnedAt(conf, s, b, b);
  }

  lemma DivWithin(x: nat, lo: nat, n: nat, d: nat)
    requires d > 0 && lo * d <= x < (lo + n) * d
    ensures lo <= x / d < lo + n
  {
    DivAtLeast(lo, d, x);
    if x / d >= lo + n {
      DivMod(x, d);
      MulMono(lo + n, x / d, d);
    }
  }

  // kva2page and the division of kmem_cache_free_one find the slab and the index of an object again.
  lemma FindObject(conf: Confs, s: State, g: Books, o: Obj)
    requires Inv(conf, s, g, None) && o in g.use
    ensures o.base in s.slabs && s.slabs[o.base].cache < |conf|
    ensures var c := conf[s.slabs[o.base].cache]; var p := Addr(c, o);
            Pg(p.z, p.byte / PGSIZE) in s.owner && s.owner[Pg(p.z, p.byte / PGSIZE)] == o.base
            && c.objsize > 0 && p.byte >= o.base.i * PGSIZE + c.offset
            && (p.byte - (o.base.i * PGSIZE + c.offset)) / c.objsize == o.idx
  {
    InUse(conf, s, g, o);
    ObjectInSlab(conf, s, g, o);
    var c := conf[s.slabs[o.base].cache];
    var p := Addr(c, o);
    Sized(conf, s.slabs[o.base].cache);
    ExactDiv(o.idx, c.objsize);
    DivWithin(p.byte, o.base.i, D.Pow2(c.order), PGSIZE);
    assert OwnedAt(conf, s, o.base, Pg(p.z, p.byte / PGSIZE));
  }

  lemma Sized(conf: Confs, i: nat)
    requires ConfOk(conf) && i < |conf|
    ensures conf[i].objsize > 0 && conf[i].objsize == ObjSize(i) && conf[i].order <= MAX_ORDER && conf[i].num > 0
    ensures (conf[i].offSlab <==> i >= 4) && (conf[i].offSlab ==> conf[i].control < 4 && !conf[conf[i].control].offSlab)
  {
    assert WellLaid(conf[i], i);
    if conf[i].offSlab {
      assert WellLaid(conf[conf[i].control], conf[i].control);
    }
  }

  lemma OrderOfPow(n: nat, order: nat)
    requires D.Pow2(n) <= D.Pow2(order) && (order > 0 ==> D.Pow2(order - 1) < D.Pow2(n))
    ensures order == n
  {
    if order < n {
      PowLess(order, n);
    } else if order > n {
      D.Pow2Mono(n, order - 1);
    }
  }

  lemma NoPageFree(free: set<Pg>)
    requires Pmm.NoneFree(free, 0)
    ensures free == {}
  {
    if p :| p in free {
      var b := D.Blk(p.z, p.i, 0);
      assert b.Lo() == p.i && b.Hi() == p.i + 1;
      assert IsFree(free, b) by {
        assert forall j: nat :: b.Lo() <= j < b.Hi() ==> Pg(b.z, j) == p;
      }
    }
  }

  // An on-slab cache cannot grow exactly if no page is free.
  lemma ControlShort(conf: Confs, s: State, i: nat, free: set<Pg>)
    requires ConfOk(conf) && i < 4 && i < |conf|
    ensures CannotGrow(conf, s, free, i) <==> free == {}
  {
    assert WellLaid(conf[i], i);
    if Pmm.NoneFree(free, 0) {
      NoPageFree(free);
    }
    if free == {} {
      forall b: D.Blk | b.o == 0 ensures !IsFree(free, b) {
        assert b.Lo() < b.Hi() && Pg(b.z, b.Lo()) !in free;
      }
    }
  }

  // Taking a block leaves no page free exactly if there were no others.
  lemma OnlySpan(free: set<Pg>, rest: set<Pg>, b: Pg, order: nat)
    requires TakenFrom(free, rest, b, order)
    ensures rest == {} <==> |free| <= D.Pow2(order)
  {
    var span := Pmm.Span(b.z, b.i, b.i + D.Pow2(order));
    assert free == rest + span;
    Pmm.SpanSize(b.z, b.i, b.i + D.Pow2(order));
  }

  // Only the lists of cache c have changed.
  ghost predicate SameSlabs(s: State, s': State, c: nat) {
    s'.slabs.Keys == s.slabs.Keys && (forall d :: d in s.slabs ==> s'.slabs[d].cache == s.slabs[d].cache)
    && |s'.full| == |s.full| && |s'.notfull| == |s.notfull| && forall k :: k != c ==> SameLists(s, s', k)
  }

  lemma NewThenTaken(conf: Confs, s: State, s1: State, s2: State, c: nat)
    requires c < |conf| && NewAsNeeded(conf, s, s1, c) && SameSlabs(s1, s2, c)
    ensures NewAsNeeded(conf, s, s2, c)
  {
    forall b | b in s2.slabs ensures b in s1.slabs {
    }
    forall k | k != c && !(conf[c].offSlab && k == conf[c].control) ensures SameLists(s, s2, k) {
      assert SameLists(s, s1, k) && SameLists(s1, s2, k);
    }
  }

  // The new slab, after the one that its control block may have needed
  lemma NewThenAdded(conf: Confs, s: State, s1: State, b: Pg, c: nat, k: Conf, ctl: Option<Ptr>)
    requires ConfOk(conf) && c < |conf| && c < |s1.notfull| && AllFull(s, c) && b !in s.slabs
    requires if conf[c].offSlab then conf[c].control < |conf| && NewAsNeeded(conf, s, s1, conf[c].control) else s1 == s
    ensures NewAsNeeded(conf, s, Added(s1, b, c, k, ctl), c) && Added(s1, b, c, k, ctl).notfull[c] == [b]
  {
    Sized(conf, c);
    var s2 := Added(s1, b, c, k, ctl);
    assert SameLists(s, s1, c);
    forall j | j != c && !(conf[c].offSlab && j == conf[c].control) ensures SameLists(s, s2, j) {
      assert SameLists(s, s1, j);
    }
    forall d | d in s2.slabs && d != b ensures d in s1.slabs && s2.slabs[d] == s1.slabs[d] {
    }
  }

  // o, if any, is an object that has just come into hand.
  ghost predicate NewHand(g: Books, g': Books, o: Option<Obj>) {
    (o.Some? ==> o.value !in g.use && o.value !in g.hands) && g'.hands == if o.Some? then g.hands + {o.value} else g.hands
  }

  lemma NotHeld(conf: Confs, s: State, g: Books, o: Obj)
    requires Inv(conf, s, g, None) && o !in g.use
    ensures o !in g.hands && o !in g.users
  {
    assert UseAt(conf, s, g, o);
  }

  lemma UserInUse(conf: Confs, s: State, g: Books, o: Obj)
    requires Inv(conf, s, g, None) && o in g.users
    ensures o in g.use && g.use[o].User? && o.base in s.slabs
  {
    assert UseAt(conf, s, g, o);
  }

  // A slab's pages have moved from the free pages to the slabs.
  lemma HomeMoved(free: set<Pg>, owner: map<Pg, Pg>, was: set<Pg>, rest: set<Pg>, owner0: map<Pg, Pg>, b: Pg, order: nat)
    requires TakenFrom(was, rest, b, order)
    requires SameHome(rest, owner0, free, owner)
    ensures SameHome(was, owner0, free, owner + SlabPages(b, order))
  {
    PagesAreSpan(b, order);
    forall p ensures AtHome(was, owner0, p) <==> AtHome(free, owner + SlabPages(b, order), p) {
      assert AtHome(rest, owner0, p) <==> AtHome(free, owner, p);
    }
  }

  lemma HomeApart(free: set<Pg>, owner: map<Pg, Pg>, zones: seq<nat>, was: set<Pg>, rest: set<Pg>, owner0: map<Pg, Pg>,
                  b: Pg, order: nat)
    requires TakenFrom(was, rest, b, order)
    requires SameHome(rest, owner0, free, owner) && Settled(was, zones, owner0)
    ensures Pmm.Away(free, b.z, b.i, b.i + D.Pow2(order)) && forall p :: p in SlabPages(b, order) ==> p !in owner
  {
    PagesAreSpan(b, order);
    forall p | p in SlabPages(b, order) ensures p !in owner && p !in free {
      assert AtHome(rest, owner0, p) <==> AtHome(free, owner, p);
    }
  }

  // Popping an object of a grown state
  lemma GrownPop(s0: State, g0: Books, s: State, g: Books, b: Pg)
    requires Grown(s0, g0, s, g) && b in s.slabs && b in g.chain && g.chain[b] != [] && Obj(b, g.chain[b][0]) !in g.use
    requires s.slabs[b].free < |s.slabs[b].bufctl| && s.slabs[b].cache < |s.full| == |s.notfull|
    ensures Grown(s0, g0, Popped(s, b), PoppedBooks(g, b)) && Obj(b, g.chain[b][0]) !in g0.use
    ensures Popped(s, b).owner == s.owner
  {
  }

  lemma GrownAdd(conf: Confs, s0: State, g0: Books, s: State, g: Books, b: Pg, c: nat, k: Conf, ctl: Option<Ptr>, o: Option<Obj>)
    requires Grown(s0, g0, s, g) && c < |s.notfull| && b !in s0.slabs && (o.Some? ==> o.value !in g0.use)
    requires NewHand(g0, g, o)
    ensures Grown(s0, g0, Added(s, b, c, k, ctl), AddedBooks(g, b, k, o)) && AddedBooks(g, b, k, o).hands == g0.hands
  {
  }

  lemma SettledAdd(free: set<Pg>, zones: seq<nat>, owner: map<Pg, Pg>, b: Pg, order: nat)
    requires Settled(free, zones, owner) && Pmm.Away(free, b.z, b.i, b.i + D.Pow2(order))
    requires Zoned(zones, b, order)
    ensures Settled(free, zones, owner + SlabPages(b, order))
  {
    PagesAreSpan(b, order);
  }

  // ---------- freeing ----------

  // list_del(&(slabp->slab_link))
  function Unlisted(s: State, b: Pg, c: nat): State
    requires c < |s.full| == |s.notfull|
  {
    s.(full := s.full[c := Del(s.full[c], b)], notfull := s.notfull[c := Del(s.notfull[c], b)])
  }

  lemma PushedKept(conf: Confs, s: State, g: Books, o: Obj)
    requires Inv(conf, s, g, None) && o in g.use && o.base in s.slabs && o.base in g.chain
    requires o.idx < |s.slabs[o.base].bufctl| && s.slabs[o.base].inuse > 0
             && s.slabs[o.base].cache < |s.full| == |s.notfull| == |conf|
    ensures Kept(s, g, Pushed(conf, s, o), PushedBooks(g, o), o) && Pushed(conf, s, o).owner == s.owner
  {
    forall x | x in g.use ensures x.base in s.slabs {
      assert UseAt(conf, s, g, x);
    }
  }

  lemma GoneKept(conf: Confs, s: State, g: Books, o: Obj)
    requires Inv(conf, s, g, None) && MayFree(conf, s, g, o) && o.base in s.slabs && s.slabs[o.base].inuse == 1
    ensures s.slabs[o.base].cache < |s.full| == |s.notfull|
    ensures Kept(s, g, Gone(s, o.base), GoneBooks(g, o), o)
  {
    InUse(conf, s, g, o);
    if o.base in g.ctl {
      CtlElsewhere(conf, s, g, o.base);
    }
    forall x | x in g.use && x != o ensures x.base in s.slabs && x.base != o.base {
      assert UseAt(conf, s, g, x);
      if x.base == o.base {
        OnlyOne(conf, s, g, o, x);
      }
    }
  }

  // Freeing the control block of a destroyed slab
  lemma KeptTwice(s: State, g: Books, s1: State, g1: Books, s2: State, g2: Books, o: Obj, x: Obj)
    requires Kept(s, g, s1, g1, o) && Kept(s1, g1, s2, g2, x) && x in g.use && g.use[x].Control?
    ensures Kept(s, g, s2, g2, o)
  {
  }

  lemma ClearedOwner(conf: Confs, s: State, g: Books, b: Pg)
    requires Inv(conf, s, g, None) && b in s.slabs
    ensures s.slabs[b].cache < |conf| == |s.full| == |s.notfull|
    ensures forall j: nat :: b.i <= j < b.i + D.Pow2(conf[s.slabs[b].cache].order) ==> Pg(b.z, j) in s.owner
    ensures s.owner - SlabPages(b, conf[s.slabs[b].cache].order).Keys == Gone(s, b).owner
  {
    MarkedPages(conf, s, g, b);
    var pages := SlabPages(b, conf[s.slabs[b].cache].order);
    forall j: nat | b.i <= j < b.i + D.Pow2(conf[s.slabs[b].cache].order) ensures Pg(b.z, j) in s.owner {
      assert Pg(b.z, j) in pages;
    }
  }

  // A destroyed slab's pages have moved from the slabs to the free pages.
  lemma Returned(conf: Confs, s: State, g: Books, b: Pg, free: set<Pg>, free': set<Pg>, zones: seq<nat>)
    requires Inv(conf, s, g, None) && b in s.slabs && Settled(free, zones, s.owner)
    requires s.slabs[b].cache < |conf| == |s.full| == |s.notfull|
    requires Pmm.Plus(free', free, b.z, b.i, b.i + D.Pow2(conf[s.slabs[b].cache].order))
    ensures SameHome(free, s.owner, free', Gone(s, b).owner) && Settled(free', zones, Gone(s, b).owner)
  {
    MarkedPages(conf, s, g, b);
    PagesAreSpan(b, conf[s.slabs[b].cache].order);
    forall p ensures AtHome(free, s.owner, p) <==> AtHome(free', Gone(s, b).owner, p) {
    }
  }

  // The pages of a slab can be freed.
  lemma SlabFreeable(conf: Confs, s: State, g: Books, b: Pg, free: set<Pg>, zones: seq<nat>)
    requires Inv(conf, s, g, None) && b in s.slabs && Settled(free, zones, s.owner)
    ensures s.slabs[b].cache < |conf| && Zoned(zones, b, conf[s.slabs[b].cache].order)
    ensures Pmm.Away(free, b.z, b.i, b.i + D.Pow2(conf[s.slabs[b].cache].order))
  {
    MarkedPages(conf, s, g, b);
    var order := conf[s.slabs[b].cache].order;
    PagesAreSpan(b, order);
    assert Pg(b.z, b.i + D.Pow2(order) - 1) in SlabPages(b, order);
    assert forall p :: p in SlabPages(b, order) ==> p in s.owner;
  }

  lemma HomeIsFree(was: set<Pg>, owner0: map<Pg, Pg>, free: set<Pg>, owner: map<Pg, Pg>)
    requires owner0 == map[] && SameHome(was, owner0, free, owner)
    ensures free + owner.Keys == was
  {
    forall p ensures p in free + owner.Keys <==> p in was {
      assert AtHome(was, owner0, p) <==> AtHome(free, owner, p);
    }
  }

  lemma SameHomeTwice(f: set<Pg>, w: map<Pg, Pg>, f1: set<Pg>, w1: map<Pg, Pg>, f2: set<Pg>, w2: map<Pg, Pg>)
    requires SameHome(f, w, f1, w1) && SameHome(f1, w1, f2, w2)
    ensures SameHome(f, w, f2, w2)
  {
    forall p ensures AtHome(f, w, p) <==> AtHome(f2, w2, p) {
      assert AtHome(f1, w1, p) <==> AtHome(f2, w2, p);
    }
  }

  // What books say after the objects freed
  ghost predicate Without(g: Books, g': Books, o: Obj) { g'.users == g.users - {o} && g'.hands == g.hands - {o} }

  lemma WithoutControl(conf: Confs, s: State, g: Books, o: Obj, g2: Books)
    requires Inv(conf, s, g, None) && o.base in g.ctl && Without(GoneBooks(g, o), g2, g.ctl[o.base])
    ensures Without(g, g2, o)
  {
    CtlElsewhere(conf, s, g, o.base);
    assert UseAt(conf, s, g, g.ctl[o.base]);
  }

  // ---------- what callers hold ----------

  ghost predicate HeldIn(conf: Confs, s: State, g: Books, p: Ptr, o: Obj) {
    o in g.users && o.base in s.slabs && s.slabs[o.base].cache < |conf| && p == Addr(conf[s.slabs[o.base].cache], o)
  }

  // Callers still hold what they held, at the same addresses and of the same size.
  ghost predicate StillHeld(conf: Confs, s: State, g: Books, s': State, g': Books, but: set<Obj>) {
    forall q, x {:trigger HeldIn(conf, s, g, q, x)} :: HeldIn(conf, s, g, q, x) && x !in but ==>
      HeldIn(conf, s', g', q, x) && s'.slabs[x.base].cache == s.slabs[x.base].cache
  }

  // What a caller of kmalloc has: the address it was given and the size it asked for
  datatype Lease = Lease(p: Ptr, size: nat)

  function RangeOf(l: Lease): Bytes { Bytes(l.p.z, l.p.byte, l.p.byte + l.size) }

  ghost predicate LeasedIn(conf: Confs, s: State, g: Books, l: Lease, o: Obj) {
    HeldIn(conf, s, g, l.p, o) && 0 < l.size <= conf[s.slabs[o.base].cache].objsize
  }

  // The callers' objects, each once, with their addresses and the sizes asked for
  ghost predicate LedgerIn(conf: Confs, s: State, g: Books, live: seq<Lease>, objs: seq<Obj>) {
    |live| == |objs| && NoDup(objs) && (forall x :: x in g.users <==> x in objs)
    && forall i {:trigger live[i]} :: 0 <= i < |live| ==> LeasedIn(conf, s, g, live[i], objs[i])
  }

  lemma LedgerMore(conf: Confs, s: State, g: Books, s': State, g': Books, live: seq<Lease>, objs: seq<Obj>, l: Lease, o: Obj)
    requires LedgerIn(conf, s, g, live, objs) && StillHeld(conf, s, g, s', g', {}) && o !in g.users
    requires g'.users == g.users + {o} && LeasedIn(conf, s', g', l, o)
    ensures LedgerIn(conf, s', g', live + [l], objs + [o])
  {
    forall i | 0 <= i < |live| ensures LeasedIn(conf, s', g', live[i], objs[i]) {
      assert HeldIn(conf, s, g, live[i].p, objs[i]);
    }
  }

  lemma LedgerLess(conf: Confs, s: State, g: Books, s': State, g': Books, live: seq<Lease>, objs: seq<Obj>, k: nat)
    requires LedgerIn(conf, s, g, live, objs) && k < |live| && StillHeld(conf, s, g, s', g', {objs[k]})
    requires g'.users == g.users - {objs[k]}
    ensures LedgerIn(conf, s', g', live[..k] + live[k + 1..], objs[..k] + objs[k + 1..])
  {
    RemovedAt(objs, k);
    var live', objs' := live[..k] + live[k + 1..], objs[..k] + objs[k + 1..];
    forall i | 0 <= i < |live'| ensures LeasedIn(conf, s', g', live'[i], objs'[i]) {
      var j := if i < k then i else i + 1;
      assert LeasedIn(conf, s, g, live[j], objs[j]) && HeldIn(conf, s, g, live[j].p, objs[j]);
    }
  }

  // c is the first cache whose objects hold size bytes.
  predicate Suits(conf: Confs, c: nat, size: nat) {
    c < |conf| && size <= conf[c].objsize && (c > 0 ==> conf[c - 1].objsize < size)
  }

  // The bytes that a caller asked for overlap no other allocated object, whether a caller's or a control block.
  lemma HeldApart(conf: Confs, s: State, g: Books, l: Lease, o: Obj, y: Obj)
    requires Inv(conf, s, g, None) && LeasedIn(conf, s, g, l, o) && y in g.use && y != o
    ensures y.base in s.slabs && s.slabs[y.base].cache < |conf| && Separate(RangeOf(l), BytesOf(conf, s, y))
  {
    UserInUse(conf, s, g, o);
    ObjectsApart(conf, s, g, o, y);
  }

  // Nor the control block that a slab keeps in its own first bytes
  lemma HeldClear(conf: Confs, s: State, g: Books, l: Lease, o: Obj, b: Pg)
    requires Inv(conf, s, g, None) && LeasedIn(conf, s, g, l, o)
    requires b in s.slabs && s.slabs[b].cache < |conf| && !conf[s.slabs[b].cache].offSlab
    ensures Separate(RangeOf(l), BytesOfControl(conf, s, b))
  {
    UserInUse(conf, s, g, o);
    ControlApart(conf, s, g, o, b);
  }

  // ---------- every moment of a run ----------

  // The slabs, the free pages and what callers hold
  datatype Moment = Moment(st: State, books: Books, free: set<Pg>, live: seq<Lease>, objs: seq<Obj>)

  // What a caller asked for shares no byte with what another asked for.
  ghost predicate LeasesApart(live: seq<Lease>) {
    forall i, j :: 0 <= i < j < |live| ==> Separate(RangeOf(live[i]), RangeOf(live[j]))
  }

  // It shares no byte with a control block, on its own slab or any other slab, or in another cache.
  ghost predicate ClearOfControl(conf: Confs, m: Moment, l: Lease) {
    (forall b :: b in m.st.slabs && m.st.slabs[b].cache < |conf| && !conf[m.st.slabs[b].cache].offSlab ==>
       Separate(RangeOf(l), BytesOfControl(conf, m.st, b)))
    && (forall x :: x in m.books.use && m.books.use[x].Control? ==>
          x.base in m.st.slabs && m.st.slabs[x.base].cache < |conf| && Separate(RangeOf(l), BytesOf(conf, m.st, x)))
  }

  // Chains and lists are exact, and every caller has the bytes it asked for to itself.
  ghost predicate Safe(conf: Confs, m: Moment) {
    Inv(conf, m.st, m.books, None) && LedgerIn(conf, m.st, m.books, m.live, m.objs) && LeasesApart(m.live)
    && forall i {:trigger m.live[i]} :: 0 <= i < |m.live| ==> ClearOfControl(conf, m, m.live[i])
  }

  lemma LedgerSafe(conf: Confs, m: Moment)
    requires Inv(conf, m.st, m.books, None) && LedgerIn(conf, m.st, m.books, m.live, m.objs)
    ensures Safe(conf, m)
  {
    var s, g := m.st, m.books;
    forall i, j | 0 <= i < j < |m.live| ensures Separate(RangeOf(m.live[i]), RangeOf(m.live[j])) {
      assert LeasedIn(conf, s, g, m.live[i], m.objs[i]) && LeasedIn(conf, s, g, m.live[j], m.objs[j]);
      UserInUse(conf, s, g, m.objs[j]);
      HeldApart(conf, s, g, m.live[i], m.objs[i], m.objs[j]);
    }
    forall i | 0 <= i < |m.live| ensures ClearOfControl(conf, m, m.live[i]) {
      assert LeasedIn(conf, s, g, m.live[i], m.objs[i]);
      LeaseClear(conf, m, m.live[i], m.objs[i]);
    }
  }

  lemma LeaseClear(conf: Confs, m: Moment, l: Lease, o: Obj)
    requires Inv(conf, m.st, m.books, None) && LeasedIn(conf, m.st, m.books, l, o)
    ensures ClearOfControl(conf, m, l)
  {
    forall b | b in m.st.slabs && m.st.slabs[b].cache < |conf| && !conf[m.st.slabs[b].cache].offSlab
      ensures Separate(RangeOf(l), BytesOfControl(conf, m.st, b))
    {
      HeldClear(conf, m.st, m.books, l, o, b);
    }
    assert UseAt(conf, m.st, m.books, o);
    forall x | x in m.books.use && m.books.use[x].Control?
      ensures x.base in m.st.slabs && m.st.slabs[x.base].cache < |conf| && Separate(RangeOf(l), BytesOf(conf, m.st, x))
    {
      HeldApart(conf, m.st, m.books, l, o, x);
    }
  }

  // What a request does; kmalloc fails exactly if the first cache whose objects are large enough has no free object and
  // memory is short.
  ghost predicate Answers(conf: Confs, m: Moment, m': Moment, req: Request) {
    match req
    case Allocate(size) =>
      if 0 < size <= D.Pow2(MAX_SIZE_ORDER) then
        exists c: nat :: Suits(conf, c, size)
                         && if Exhausted(conf, m.st, m.free, c) then m' == m else Granted(conf, m, m', c, size)
      else m' == m
    case Release(k) =>
      if k < |m.live| then
        m'.live == m.live[..k] + m.live[k + 1..]
        && k < |m.objs| && GivenBack(m.st, m'.st, m.objs[k]) && (m.st.slabs[m.objs[k].base].inuse > 1 ==> m'.free == m.free)
      else m' == m
  }

  // One lease more, at the address of the object taken; pages are taken only if the cache had no free object.
  ghost predicate Granted(conf: Confs, m: Moment, m': Moment, c: nat, size: nat)
    requires c < |conf|
  {
    (exists o {:trigger Addr(conf[c], o)} :: TakenAt(conf, m.st, m'.st, c, o) && m'.objs == m.objs + [o]
                                            && m'.live == m.live + [Lease(Addr(conf[c], o), size)])
    && (!AllFull(m.st, c) ==> m'.free == m.free)
  }

  lemma Answered(conf: Confs, m: Moment, m': Moment, c: nat, size: nat, o: Obj)
    requires 0 < size <= D.Pow2(MAX_SIZE_ORDER) && Suits(conf, c, size) && !Exhausted(conf, m.st, m.free, c)
    requires TakenAt(conf, m.st, m'.st, c, o) && (!AllFull(m.st, c) ==> m'.free == m.free)
    requires m'.objs == m.objs + [o] && m'.live == m.live + [Lease(Addr(conf[c], o), size)]
    ensures Answers(conf, m, m', Allocate(size))
  {
    assert Granted(conf, m, m', c, size);
  }

  lemma GrownHeld(conf: Confs, s: State, g: Books, s': State, g': Books, o: Obj)
    requires Inv(conf, s, g, None) && Grown(s, g, s', g')
    ensures StillHeld(conf, s, g, s', HandedBooks(g', o), {})
  {
    forall q, x | HeldIn(conf, s, g, q, x)
      ensures HeldIn(conf, s', HandedBooks(g', o), q, x) && s'.slabs[x.base].cache == s.slabs[x.base].cache
    {
      UserInUse(conf, s, g, x);
    }
  }

  lemma KeptHeld(conf: Confs, s: State, g: Books, s': State, g': Books, o: Obj)
    requires Inv(conf, s, g, None) && Kept(s, g, s', g', o) && Without(g, g', o)
    ensures StillHeld(conf, s, g, s', g', {o})
  {
    forall q, x | HeldIn(conf, s, g, q, x) && x !in {o}
      ensures HeldIn(conf, s', g', q, x) && s'.slabs[x.base].cache == s.slabs[x.base].cache
    {
      UserInUse(conf, s, g, x);
    }
  }

  class Slabs {
    const conf: Confs
    const pmm: Pmm.Allocator
    var st: State
    ghost var books: Books

    ghost predicate Ok(hollow: Option<Pg>)
      reads this, pmm
    {
      pmm.Valid() && Inv(conf, st, books, hollow) && Settled(pmm.free, pmm.zones, st.owner)
    }

    // Between calls
    ghost predicate Valid()
      reads this, pmm
    {
      Ok(None) && books.hands == {}
    }

    // slab_init
    constructor (pmm0: Pmm.Allocator)
      requires pmm0.Valid()
      ensures Valid() && pmm == pmm0 && st.slabs == map[] && st.owner == map[] && books.users == {}
    {
      var k: Confs := [];
      while |k| < SLAB_CACHE_NUM
        invariant |k| <= SLAB_CACHE_NUM && forall i {:trigger WellLaid(k[i], i)} :: 0 <= i < |k| ==> WellLaid(k[i], i)
      {
        var c := InitKmemCache(|k|);
        k := k + [c];
      }
      conf := k;
      pmm := pmm0;
      st := State(map[], map[], seq(SLAB_CACHE_NUM, _ => []), seq(SLAB_CACHE_NUM, _ => []));
      books := Books(map[], map[], map[], {}, {});
    }

    // kmem_cache_alloc_one
    method AllocOne(c: nat, b: Pg, ghost hollow: Option<Pg>) returns (p: Ptr, ghost o: Obj)
      requires Inv(conf, st, books, hollow) && (hollow.None? || hollow == Some(b))
      requires c < |conf| == |st.notfull| && b in st.notfull[c]
      modifies this
      ensures Inv(conf, st, books, None) && b in old(st).slabs && b in old(books).chain && old(books).chain[b] != []
      ensures old(st).slabs[b].free < |old(st).slabs[b].bufctl| && old(st).slabs[b].cache == c < |old(st).full|
      ensures st == Popped(old(st), b) && books == PoppedBooks(old(books), b)
      ensures o == Obj(b, old(st).slabs[b].free) == Obj(b, old(books).chain[b][0])
      ensures o !in old(books).use && p == Addr(conf[c], o)
    {
      assert PlacedAt(conf, st, b, c);
      HasFree(conf, st, books, hollow, b);
      PoppedInv(conf, st, books, hollow, b);
      o := Obj(b, books.chain[b][0]);
      ghost var s := st;
      var x := st.slabs[b];
      var y := x.(inuse := x.inuse + 1);
      p := Ptr(b.z, b.i * PGSIZE + conf[c].offset + y.free * conf[c].objsize);
      y := y.(free := y.bufctl[y.free]);
      st := st.(slabs := st.slabs[b := y]);
      if y.free == BUFCTL_END {
        st := MoveToFull(st, b, c);
      }
      books := PoppedBooks(books, b);
    }

    // The allocation proper, from a slab that has just been made or was there
    method TakeOne(c: nat, b: Pg, ghost hollow: Option<Pg>, ghost s0: State, ghost g0: Books)
      returns (p: Option<Ptr>, ghost o: Obj)
      requires Ok(hollow) && (hollow.None? || hollow == Some(b)) && c < |conf| == |st.notfull| && b in st.notfull[c]
      requires Grown(s0, g0, st, books)
      modifies this
      ensures Ok(None) && st.owner == old(st).owner && Grown(s0, g0, st, books) && o !in g0.use
      ensures o in books.use && books.hands == old(books).hands + {o}
      ensures p.Some? && o.base in st.slabs && st.slabs[o.base].cache == c && p.value == Addr(conf[c], o)
      ensures o.base == b && b in old(st).slabs && o.idx == old(st).slabs[b].free && SameSlabs(old(st), st, c)
      ensures old(st).notfull[c][0] == b ==>
                c < |st.full| && st.notfull[c] == if b in st.full[c] then old(st).notfull[c][1..] else old(st).notfull[c]
    {
      var r;
      r, o := AllocOne(c, b, hollow);
      GrownPop(s0, g0, old(st), old(books), b);
      assert PlacedAt(conf, st, b, c);
      p := Some(r);
    }

    // kmem_cache_alloc: an object of the cache, after growing it if no slab has one. NULL comes exactly if it cannot grow.
    method KmemCacheAlloc(c: nat) returns (p: Option<Ptr>, ghost o: Obj)
      requires Ok(None) && c < |conf|
      modifies this, pmm`lists, pmm`nr, pmm`head, pmm`free
      ensures Ok(None) && SameHome(old(pmm.free), old(st.owner), pmm.free, st.owner)
      ensures p.None? <==> Exhausted(conf, old(st), old(pmm.free), c)
      ensures p.None? ==> st == old(st) && books == old(books) && pmm.free == old(pmm.free)
      ensures p.Some? ==> TakenAt(conf, old(st), st, c, o) && (!AllFull(old(st), c) ==> pmm.free == old(pmm.free))
      ensures p.Some? ==> Grown(old(st), old(books), st, books) && o !in old(books).use && o in books.use
                          && books.hands == old(books).hands + {o}
                          && o.base in st.slabs && st.slabs[o.base].cache == c && p.value == Addr(conf[c], o)
      decreases Rank(conf[c]), 3
    {
      ghost var hollow := None;
      o := Obj(Pg(0, 0), 0);
      if st.notfull[c] == [] {
        var ok;
        ghost var b;
        ok, b := Grow(c);
        if !ok {
          return None, o;
        }
        hollow := Some(b);
      }
      ghost var grown := st;
      p, o := TakeOne(c, st.notfull[c][0], hollow, old(st), old(books));
      NewThenTaken(conf, old(st), grown, st, c);
    }

    // kmem_cache_grow: a new slab at the front of the cache's list
    method Grow(c: nat) returns (ok: bool, ghost b: Pg)
      requires Ok(None) && c < |conf|
      modifies this, pmm`lists, pmm`nr, pmm`head, pmm`free
      ensures SameHome(old(pmm.free), old(st.owner), pmm.free, st.owner)
      ensures !ok ==> Ok(None) && st == old(st) && books == old(books)
      ensures !ok ==> pmm.free == old(pmm.free)
      ensures AllFull(old(st), c) ==> (ok <==> !CannotGrow(conf, old(st), old(pmm.free), c))
      ensures ok && AllFull(old(st), c) ==> NewAsNeeded(conf, old(st), st, c) && st.notfull[c] == [b]
      ensures ok ==> b !in old(st).slabs && b in st.slabs && st.slabs[b].free == 0
      ensures ok ==> Ok(Some(b)) && Grown(old(st), old(books), st, books) && books.hands == old(books).hands
                     && st.notfull[c] != [] && st.notfull[c][0] == b
      decreases Rank(conf[c]), 2
    {
      var k := conf[c];
      Sized(conf, c);
      D.Pow2Mono(k.order, MAX_ORDER);
      var page;
      ghost var order;
      page, order := pmm.AllocPages(D.Pow2(k.order));
      OrderOfPow(k.order, order);
      b := Pg(0, 0);
      if page.None? {
        return false, b;
      }
      b := page.value;
      OnlySpan(old(pmm.free), pmm.free, b, k.order);
      ok := AddSlab(c, page.value, old(pmm.free));
    }

    // The rest of kmem_cache_grow, with the pages of the new slab in hand
    method AddSlab(c: nat, b: Pg, ghost free: set<Pg>) returns (ok: bool)
      requires Ok(None) && c < |conf| && TakenFrom(free, pmm.free, b, conf[c].order)
      requires Settled(free, pmm.zones, st.owner) && Zoned(pmm.zones, b, conf[c].order)
      modifies this, pmm`lists, pmm`nr, pmm`head, pmm`free
      ensures SameHome(free, old(st).owner, pmm.free, st.owner)
      ensures !ok ==> Ok(None) && st == old(st) && books == old(books) && pmm.free == free
      ensures ok <==> !(conf[c].offSlab && AllFull(old(st), conf[c].control) && old(pmm.free) == {})
      ensures ok && AllFull(old(st), c) ==> NewAsNeeded(conf, old(st), st, c) && st.notfull[c] == [b]
      ensures ok ==> b !in old(st).slabs && b in st.slabs && st.slabs[b].free == 0
      ensures ok ==> Ok(Some(b)) && Grown(old(st), old(books), st, books) && books.hands == old(books).hands
                     && st.notfull[c] != [] && st.notfull[c][0] == b
      decreases Rank(conf[c]), 1
    {
      var k := conf[c];
      var ctl;
      ghost var o;
      FreshBase(conf, st, books, b, free, pmm.free, pmm.zones, k.order);
      ok, ctl, o := ControlBlock(c, b, free);
      if ok {
        GrownAdd(conf, old(st), old(books), st, books, b, c, k, ctl, o);
        HomeMoved(pmm.free, st.owner, free, old(pmm.free), old(st).owner, b, k.order);
        if AllFull(old(st), c) {
          NewThenAdded(conf, old(st), st, b, c, k, ctl);
        }
        LinkSlab(c, b, ctl, o);
      }
    }

    // kmem_cache_slabmgmt: where the control block of the new slab is. Without one the pages go back.
    method ControlBlock(c: nat, b: Pg, ghost free: set<Pg>) returns (ok: bool, ctl: Option<Ptr>, ghost o: Option<Obj>)
      requires Ok(None) && c < |conf| && TakenFrom(free, pmm.free, b, conf[c].order)
      requires Settled(free, pmm.zones, st.owner) && Zoned(pmm.zones, b, conf[c].order)
      modifies this, pmm`lists, pmm`nr, pmm`head, pmm`free
      ensures Ok(None)
      ensures !ok ==> st == old(st) && books == old(books) && pmm.free == free
      ensures ok <==> !(conf[c].offSlab && AllFull(old(st), conf[c].control) && old(pmm.free) == {})
      ensures ok ==> if conf[c].offSlab then conf[c].control < |conf| && NewAsNeeded(conf, old(st), st, conf[c].control)
                     else st == old(st)
      ensures ok ==> MayAdd(conf, st, books, b, c, ctl, o) && Grown(old(st), old(books), st, books)
                     && NewHand(old(books), books, o)
                     && SameHome(old(pmm.free), old(st).owner, pmm.free, st.owner)
                     && Pmm.Away(pmm.free, b.z, b.i, b.i + D.Pow2(conf[c].order))
      decreases Rank(conf[c]), 0
    {
      var k := conf[c];
      Sized(conf, c);
      HomeApart(pmm.free, st.owner, pmm.zones, free, pmm.free, st.owner, b, k.order);
      if !k.offSlab {
        return true, None, None;
      }
      ghost var x;
      ctl, x := KmemCacheAlloc(k.control);
      ok, o := ctl.Some?, Some(x);
      ControlShort(conf, old(st), k.control, old(pmm.free));
      if !ok {
        GiveBack(b, k.order, free);
      } else {
        HomeApart(pmm.free, st.owner, pmm.zones, free, old(pmm.free), old(st).owner, b, k.order);
        NotHeld(conf, old(st), old(books), x);
      }
    }

    // free_pages(page, 1 << cachep->page_order)
    method GiveBack(b: Pg, order: nat, ghost free: set<Pg>)
      requires Ok(None) && order <= MAX_ORDER && Zoned(pmm.zones, b, order)
      requires TakenFrom(free, pmm.free, b, order)
      requires Settled(free, pmm.zones, st.owner)
      modifies pmm`lists, pmm`nr, pmm`head, pmm`free
      ensures Ok(None) && pmm.free == free
    {
      PowLess(order, MAX_ORDER + 1);
      Pmm.ShortFreeable(b.i, D.Pow2(order));
      pmm.FreePages(b, D.Pow2(order));
    }

    // The new slab's marks, its chain, and its place on the list
    method LinkSlab(c: nat, b: Pg, ctl: Option<Ptr>, ghost o: Option<Obj>)
      requires Ok(None) && c < |conf| && MayAdd(conf, st, books, b, c, ctl, o)
      requires Pmm.Away(pmm.free, b.z, b.i, b.i + D.Pow2(conf[c].order))
      requires Zoned(pmm.zones, b, conf[c].order)
      modifies this
      ensures Ok(Some(b)) && c < |old(st).notfull|
      ensures st == Added(old(st), b, c, conf[c], ctl) && books == AddedBooks(old(books), b, conf[c], o)
    {
      var k := conf[c];
      Sized(conf, c);
      AddedInv(conf, st, books, b, c, ctl, o);
      SettledAdd(pmm.free, pmm.zones, st.owner, b, k.order);
      var owner := MarkPages(st.owner, b, k.order);
      var bufctl := FillBufctl(k.num);
      var slabs := st.slabs[b := Slab(c, 0, 0, bufctl, ctl)];
      st := st.(slabs := slabs, owner := owner, notfull := st.notfull[c := [b] + st.notfull[c]]);
      books := AddedBooks(books, b, k, o);
    }

    // kmem_cache_free and kmem_cache_free_one
    method KmemCacheFree(c: nat, p: Ptr, ghost o: Obj)
      requires Ok(None) && c < |conf| && MayFree(conf, st, books, o)
      requires o.base in st.slabs && st.slabs[o.base].cache == c && p == Addr(conf[c], o)
      modifies this, pmm`lists, pmm`nr, pmm`head, pmm`free
      ensures Ok(None) && SameHome(old(pmm.free), old(st).owner, pmm.free, st.owner)
      ensures Kept(old(st), old(books), st, books, o) && Without(old(books), books, o)
      ensures GivenBack(old(st), st, o) && (old(st).slabs[o.base].inuse > 1 ==> pmm.free == old(pmm.free))
      decreases Rank(conf[c]), 2
    {
      FindObject(conf, st, books, o);
      InUse(conf, st, books, o);
      var page := Pg(p.z, p.byte / PGSIZE);
      // PageSlab(page)
      assert page in st.owner;
      var b := st.owner[page];
      var objnr := (p.byte - (b.i * PGSIZE + conf[c].offset)) / conf[c].objsize;
      if st.slabs[b].inuse == 1 {
        st := Unlisted(st, b, c);
        SlabDestroy(c, b, o, old(st));
      } else {
        PushObject(c, b, objnr, o);
      }
    }

    // An object goes back to a slab that keeps others.
    method PushObject(c: nat, b: Pg, objnr: nat, ghost o: Obj)
      requires Ok(None) && c < |conf| && MayFree(conf, st, books, o) && o == Obj(b, objnr)
      requires b in st.slabs && st.slabs[b].cache == c && st.slabs[b].inuse > 1 && objnr < |st.slabs[b].bufctl|
      modifies this
      ensures Ok(None) && st.owner == old(st).owner && GivenBack(old(st), st, o)
      ensures Kept(old(st), old(books), st, books, o) && Without(old(books), books, o)
    {
      PushedInv(conf, st, books, o);
      PushedKept(conf, st, books, o);
      assert PlacedAt(conf, st, b, c) && SlabAt(conf, st, books, b);
      var x := st.slabs[b];
      x := x.(bufctl := x.bufctl[objnr := x.free], free := objnr, inuse := x.inuse - 1);
      st := st.(slabs := st.slabs[b := x]);
      if x.inuse == conf[c].num - 1 {
        st := MoveToNotfull(st, b, c);
      }
      books := PushedBooks(books, o);
    }

    // kmem_slab_destroy, of a slab whose last object o is being freed; s is the state before it was taken off its list
    method SlabDestroy(c: nat, b: Pg, ghost o: Obj, ghost s: State)
      requires pmm.Valid() && Inv(conf, s, books, None) && Settled(pmm.free, pmm.zones, s.owner)
      requires c < |conf| && MayFree(conf, s, books, o) && o.base == b && b in s.slabs && s.slabs[b].inuse == 1
      requires s.slabs[b].cache == c < |s.full| == |s.notfull| && st == Unlisted(s, b, c)
      modifies this, pmm`lists, pmm`nr, pmm`head, pmm`free
      ensures Ok(None) && SameHome(old(pmm.free), s.owner, pmm.free, st.owner)
      ensures Kept(s, old(books), st, books, o) && Without(old(books), books, o) && GivenBack(s, st, o)
      decreases Rank(conf[c]), 1
    {
      var ctl := st.slabs[b].ctl;
      ReleasePages(c, b, o, s);
      if conf[c].offSlab {
        FreeControl(c, ctl, o, s, old(books), old(pmm.free));
      } else {
        assert CtlAt(conf, s, old(books), b);
      }
    }

    // Its pages lose their marks and go back to the buddy allocator.
    method ReleasePages(c: nat, b: Pg, ghost o: Obj, ghost s: State)
      requires pmm.Valid() && Inv(conf, s, books, None) && Settled(pmm.free, pmm.zones, s.owner)
      requires c < |conf| && MayFree(conf, s, books, o) && o.base == b && b in s.slabs && s.slabs[b].inuse == 1
      requires s.slabs[b].cache == c < |s.full| == |s.notfull| && st == Unlisted(s, b, c)
      modifies this, pmm`lists, pmm`nr, pmm`head, pmm`free
      ensures Ok(None) && st == Gone(s, b) && books == GoneBooks(old(books), o)
      ensures SameHome(old(pmm.free), s.owner, pmm.free, st.owner) && Kept(s, old(books), st, books, o)
    {
      GoneInv(conf, s, books, o);
      GoneKept(conf, s, books, o);
      ClearedOwner(conf, s, books, b);
      var owner := ClearPages(st.owner, b, conf[c].order);
      FreeSlabPages(c, b, s);
      st := st.(owner := owner, slabs := st.slabs - {b});
      assert st == Gone(s, b);
      books := GoneBooks(books, o);
    }

    // free_pages(page, 1 << cachep->page_order)
    method FreeSlabPages(c: nat, b: Pg, ghost s: State)
      requires pmm.Valid() && Inv(conf, s, books, None) && Settled(pmm.free, pmm.zones, s.owner)
      requires c < |conf| && b in s.slabs && s.slabs[b].cache == c < |s.full| == |s.notfull|
      modifies pmm`lists, pmm`nr, pmm`head, pmm`free
      ensures pmm.Valid() && SameHome(old(pmm.free), s.owner, pmm.free, Gone(s, b).owner)
              && Settled(pmm.free, pmm.zones, Gone(s, b).owner)
    {
      var order := conf[c].order;
      Sized(conf, c);
      SlabFreeable(conf, s, books, b, pmm.free, pmm.zones);
      PowLess(order, MAX_ORDER + 1);
      Pmm.ShortFreeable(b.i, D.Pow2(order));
      pmm.FreePages(b, D.Pow2(order));
      Returned(conf, s, books, b, old(pmm.free), pmm.free, pmm.zones);
    }

    // The control block of a destroyed off-slab slab goes back to its cache.
    method FreeControl(c: nat, ctl: Option<Ptr>, ghost o: Obj, ghost s: State, ghost g: Books, ghost free: set<Pg>)
      requires Ok(None) && Inv(conf, s, g, None) && MayFree(conf, s, g, o) && o.base in s.slabs
               && s.slabs[o.base].cache == c < |conf|
      requires conf[c].offSlab && ctl == s.slabs[o.base].ctl && c < |s.full| == |s.notfull|
      requires st == Gone(s, o.base) && books == GoneBooks(g, o) && Kept(s, g, st, books, o)
               && SameHome(free, s.owner, pmm.free, st.owner)
      modifies this, pmm`lists, pmm`nr, pmm`head, pmm`free
      ensures Ok(None) && SameHome(free, s.owner, pmm.free, st.owner)
      ensures Kept(s, g, st, books, o) && Without(g, books, o) && st.slabs.Keys <= old(st).slabs.Keys
      decreases Rank(conf[c]), 0
    {
      assert CtlAt(conf, s, g, o.base);
      CtlElsewhere(conf, s, g, o.base);
      Sized(conf, c);
      ghost var x := g.ctl[o.base];
      ghost var s1, g1, free1 := st, books, pmm.free;
      KmemCacheFree(conf[c].control, ctl.value, x);
      KeptTwice(s, g, s1, g1, st, books, o, x);
      SameHomeTwice(free, s.owner, free1, s1.owner, pmm.free, st.owner);
      WithoutControl(conf, s, g, o, books);
    }

    // p is the address of caller's object o.
    ghost predicate Holds(p: Ptr, o: Obj)
      reads this
    {
      HeldIn(conf, st, books, p, o)
    }

    // kmalloc: an object of the smallest cache whose objects are large enough. It fails exactly if that cache has no free
    // object and memory is short.
    method Kmalloc(size: nat) returns (p: Option<Ptr>, ghost o: Obj, ghost c: nat)
      requires Valid() && 0 < size <= D.Pow2(MAX_SIZE_ORDER)
      modifies this, pmm`lists, pmm`nr, pmm`head, pmm`free
      ensures Valid() && SameHome(old(pmm.free), old(st).owner, pmm.free, st.owner)
      ensures Suits(conf, c, size) && (p.None? <==> Exhausted(conf, old(st), old(pmm.free), c))
      ensures p.None? ==> st == old(st) && books == old(books) && pmm.free == old(pmm.free)
      ensures p.Some? ==> TakenAt(conf, old(st), st, c, o) && (!AllFull(old(st), c) ==> pmm.free == old(pmm.free))
      ensures p.Some? ==> o !in old(books).use && books.users == old(books).users + {o} && Holds(p.value, o)
                          && st.slabs[o.base].cache == c
      ensures StillHeld(conf, old(st), old(books), st, books, {})
    {
      var i := CacheFor(size);
      c := i;
      p, o := KmemCacheAlloc(i);
      if p.Some? {
        NotHeld(conf, old(st), old(books), o);
        GrownHeld(conf, old(st), old(books), st, books, o);
        HandOver(o);
      }
    }

    // slab_cache + (getorder(size) - MIN_SIZE_ORDER)
    method CacheFor(size: nat) returns (c: nat)
      requires ConfOk(conf) && 0 < size <= D.Pow2(MAX_SIZE_ORDER)
      ensures Suits(conf, c, size)
    {
      var order := GetOrder(size);
      c := order - MIN_SIZE_ORDER;
      Sized(conf, c);
      if c > 0 {
        Sized(conf, c - 1);
      }
    }

    // The object in hand is the caller's from now on.
    ghost method HandOver(o: Obj)
      requires Ok(None) && o in books.hands && books.hands - {o} == {}
      modifies this`books
      ensures Valid() && books == HandedBooks(old(books), o)
    {
      HandedInv(conf, st, books, o);
      books := HandedBooks(books, o);
    }

    // kfree
    method Kfree(p: Ptr, ghost o: Obj)
      requires Valid() && Holds(p, o)
      modifies this, pmm`lists, pmm`nr, pmm`head, pmm`free
      ensures Valid() && SameHome(old(pmm.free), old(st).owner, pmm.free, st.owner) && books.users == old(books).users - {o}
      ensures StillHeld(conf, old(st), old(books), st, books, {o})
      ensures GivenBack(old(st), st, o) && (old(st).slabs[o.base].inuse > 1 ==> pmm.free == old(pmm.free))
    {
      UserInUse(conf, st, books, o);
      FindObject(conf, st, books, o);
      var page := Pg(p.z, p.byte / PGSIZE);
      var c := st.slabs[st.owner[page]].cache;
      KmemCacheFree(c, p, o);
      KeptHeld(conf, old(st), old(books), st, books, o);
    }

    // Freeing every object empties every list and gives all the slabs' pages back.
    method FreeAll(live: seq<Lease>, ghost objs: seq<Obj>)
      requires Valid() && Ledger(live, objs)
      modifies this, pmm`lists, pmm`nr, pmm`head, pmm`free
      ensures Valid() && st.slabs == map[] && st.owner == map[] && books.users == {}
      ensures forall c :: 0 <= c < |conf| ==> st.full[c] == [] && st.notfull[c] == []
      ensures pmm.free == old(pmm.free) + old(st).owner.Keys
    {
      var rest := live;
      ghost var left := objs;
      assert SameHome(pmm.free, st.owner, pmm.free, st.owner);
      while rest != []
        invariant Valid() && Ledger(rest, left) && SameHome(old(pmm.free), old(st).owner, pmm.free, st.owner)
        decreases |rest|
      {
        rest, left := FreeAt(rest, |rest| - 1, left, old(pmm.free), old(st).owner);
      }
      assert books.users == {};
      AllFreed(conf, st, books);
      forall p ensures p in pmm.free <==> p in old(pmm.free) + old(st).owner.Keys {
        assert AtHome(old(pmm.free), old(st).owner, p) <==> AtHome(pmm.free, st.owner, p);
      }
    }

    // The callers' objects and their addresses
    ghost predicate Ledger(live: seq<Lease>, objs: seq<Obj>)
      reads this
    {
      LedgerIn(conf, st, books, live, objs)
    }

    ghost function Now(live: seq<Lease>, objs: seq<Obj>): Moment
      reads this, pmm
    {
      Moment(st, books, pmm.free, live, objs)
    }

    method FreeAt(live: seq<Lease>, k: nat, ghost objs: seq<Obj>, ghost free: set<Pg>, ghost owner: map<Pg, Pg>)
      returns (live': seq<Lease>, ghost objs': seq<Obj>)
      requires Valid() && Ledger(live, objs) && k < |live| && SameHome(free, owner, pmm.free, st.owner)
      modifies this, pmm`lists, pmm`nr, pmm`head, pmm`free
      ensures Valid() && Ledger(live', objs') && live' == live[..k] + live[k + 1..] && SameHome(free, owner, pmm.free, st.owner)
      ensures k < |objs| && GivenBack(old(st), st, objs[k])
      ensures old(st).slabs[objs[k].base].inuse > 1 ==> pmm.free == old(pmm.free)
    {
      ghost var o := objs[k];
      ghost var free1, owner1 := pmm.free, st.owner;
      assert LeasedIn(conf, st, books, live[k], o);
      Kfree(live[k].p, o);
      SameHomeTwice(free, owner, free1, owner1, pmm.free, st.owner);
      live', objs' := live[..k] + live[k + 1..], objs[..k] + objs[k + 1..];
      LedgerLess(conf, old(st), old(books), st, books, live, objs, k);
    }

    method TakeMore(size: nat, live: seq<Lease>, ghost objs: seq<Obj>) returns (live': seq<Lease>, ghost objs': seq<Obj>)
      requires Valid() && Ledger(live, objs) && 0 < size <= D.Pow2(MAX_SIZE_ORDER)
      modifies this, pmm`lists, pmm`nr, pmm`head, pmm`free
      ensures Valid() && Ledger(live', objs') && SameHome(old(pmm.free), old(st).owner, pmm.free, st.owner)
      ensures Answers(conf, old(Now(live, objs)), Now(live', objs'), Allocate(size))
    {
      var p;
      ghost var o, c;
      live', objs' := live, objs;
      p, o, c := Kmalloc(size);
      if p.Some? {
        NotHeld(conf, old(st), old(books), o);
        LedgerMore(conf, old(st), old(books), st, books, live, objs, Lease(p.value, size), o);
        live', objs' := live + [Lease(p.value, size)], objs + [o];
        Answered(conf, old(Now(live, objs)), Now(live', objs'), c, size, o);
      }
    }

    // One request of a caller
    method Serve(req: Request, live: seq<Lease>, ghost objs: seq<Obj>) returns (live': seq<Lease>, ghost objs': seq<Obj>)
      requires Valid() && Ledger(live, objs)
      modifies this, pmm`lists, pmm`nr, pmm`head, pmm`free
      ensures Valid() && Ledger(live', objs') && SameHome(old(pmm.free), old(st).owner, pmm.free, st.owner)
      ensures Answers(conf, old(Now(live, objs)), Now(live', objs'), req)
    {
      live', objs' := live, objs;
      assert SameHome(pmm.free, st.owner, pmm.free, st.owner);
      match req
      case Allocate(size) =>
        if 0 < size <= D.Pow2(MAX_SIZE_ORDER) {
          live', objs' := TakeMore(size, live, objs);
        }
      case Release(k) =>
        if k < |live| {
          live', objs' := FreeAt(live, k, objs, pmm.free, st.owner);
        }
    }

    method Turn(req: Request, live: seq<Lease>, ghost objs: seq<Obj>, ghost free: set<Pg>, ghost owner: map<Pg, Pg>)
      returns (live': seq<Lease>, ghost objs': seq<Obj>)
      requires Valid() && Ledger(live, objs) && SameHome(free, owner, pmm.free, st.owner)
      modifies this, pmm`lists, pmm`nr, pmm`head, pmm`free
      ensures Valid() && Ledger(live', objs') && SameHome(free, owner, pmm.free, st.owner)
      ensures Answers(conf, old(Now(live, objs)), Now(live', objs'), req) && Safe(conf, Now(live', objs'))
    {
      ghost var free1, owner1 := pmm.free, st.owner;
      live', objs' := Serve(req, live, objs);
      SameHomeTwice(free, owner, free1, owner1, pmm.free, st.owner);
      LedgerSafe(conf, Now(live', objs'));
    }

    // A run of requests: each is answered, and every moment is safe.
    method Run(reqs: seq<Request>, ghost free: set<Pg>, ghost owner: map<Pg, Pg>)
      returns (live: seq<Lease>, ghost objs: seq<Obj>, ghost trace: seq<Moment>)
      requires Valid() && books.users == {} && SameHome(free, owner, pmm.free, st.owner)
      modifies this, pmm`lists, pmm`nr, pmm`head, pmm`free
      ensures Valid() && Ledger(live, objs) && SameHome(free, owner, pmm.free, st.owner)
      ensures |trace| == |reqs| + 1 && trace[0] == old(Now([], [])) && trace[|reqs|] == Now(live, objs)
      ensures forall i :: 0 <= i < |reqs| ==> Answers(conf, trace[i], trace[i + 1], reqs[i])
      ensures forall i :: 0 <= i < |trace| ==> Safe(conf, trace[i])
    {
      live, objs := [], [];
      trace := [Now(live, objs)];
      LedgerSafe(conf, Now(live, objs));
      for i := 0 to |reqs|
        invariant Valid() && Ledger(live, objs) && SameHome(free, owner, pmm.free, st.owner)
        invariant |trace| == i + 1 && trace[0] == old(Now([], [])) && trace[i] == Now(live, objs)
        invariant forall j :: 0 <= j < i ==> Answers(conf, trace[j], trace[j + 1], reqs[j])
        invariant forall j :: 0 <= j <= i ==> Safe(conf, trace[j])
      {
        live, objs := Turn(reqs[i], live, objs, free, owner);
        trace := trace + [Now(live, objs)];
      }
    }

    // Every run of kmalloc and kfree is safe at each of its moments; when what is still held at its end is freed, the buddy
    // allocator has its blocks back.
    method Session(reqs: seq<Request>) returns (ghost trace: seq<Moment>)
      requires Valid() && books.users == {}
      modifies this, pmm`lists, pmm`nr, pmm`head, pmm`free
      ensures Valid() && st.slabs == map[] && st.owner == map[] && pmm.free == old(pmm.free) && pmm.head == old(pmm.head)
      ensures |trace| == |reqs| + 1 && trace[0] == old(Now([], []))
      ensures forall i :: 0 <= i < |reqs| ==> Answers(conf, trace[i], trace[i + 1], reqs[i])
      ensures forall i :: 0 <= i < |trace| ==> Safe(conf, trace[i])
    {
      AllFreed(conf, st, books);
      var live;
      ghost var objs;
      assert SameHome(pmm.free, st.owner, pmm.free, st.owner);
      live, objs, trace := Run(reqs, pmm.free, st.owner);
      HomeIsFree(old(pmm.free), old(st).owner, pmm.free, st.owner);
      FreeAll(live, objs);
      CanonicalIsUnique(pmm.free, old(pmm.head), pmm.head);
    }
  }

  lemma RemovedAt(objs: seq<Obj>, k: nat)
    requires k < |objs| && NoDup(objs)
    ensures var s := objs[..k] + objs[k + 1..]; NoDup(s) && forall x :: x in s <==> x in objs && x != objs[k]
  {
    var s := objs[..k] + objs[k + 1..];
    forall x | x in objs && x != objs[k] ensures x in s {
      var i :| 0 <= i < |objs| && objs[i] == x;
      assert s[if i < k then i else i - 1] == x;
    }
  }

  datatype Request = Allocate(size: nat) | Release(k: nat)
}
