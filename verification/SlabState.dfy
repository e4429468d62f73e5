/**
 The slabs of kern/mm/slab.c as values: what holds between its steps, and what each step keeps.
 */
module SlabState {
  import opened Options
  import opened Arithmetic
  import opened Lists
  import opened Units
  import opened BuddyBlocks
  import opened SlabLayout
  import D = Dyadic
  import Pmm = BuddyAllocator

  // A kernel address: a zone of physical pages and a byte in it
  datatype Ptr = Ptr(z: nat, byte: nat)

  // Object idx of the slab whose first page is base
  datatype Obj = Obj(base: Pg, idx: nat)

  // slab_t, with the address of the control block if it is an object of another cache
  datatype Slab = Slab(cache: nat, inuse: nat, free: nat, bufctl: seq<nat>, ctl: Option<Ptr>)

  // The slabs by first page, GET_PAGE_SLAB of every slab page, and the two lists of every cache
  datatype State = State(slabs: map<Pg, Slab>, owner: map<Pg, Pg>, full: seq<seq<Pg>>, notfull: seq<seq<Pg>>)

  // An allocated object is a caller's, is being handed over, or controls a slab.
  datatype Use = User | Hand | Control(of: Pg)

  // The free chain of every slab, what every allocated object is used for, and the control object of every off-slab slab
  datatype Books = Books(chain: map<Pg, seq<nat>>, use: map<Obj, Use>, ctl: map<Pg, Obj>, users: set<Obj>, hands: set<Obj>)

  type Confs = seq<Conf>

  // ---------- free chains ----------

  ghost predicate ChainFrom(bufctl: seq<nat>, f: nat, chain: seq<nat>)
    decreases |chain|
  {
    if chain == [] then f == BUFCTL_END
    else f == chain[0] && f < |bufctl| && ChainFrom(bufctl, bufctl[f], chain[1..])
  }

  ghost predicate Under(s: seq<nat>, n: nat) { forall i :: 0 <= i < |s| ==> s[i] < n }

  lemma {:induction false} ChainKept(bufctl: seq<nat>, f: nat, chain: seq<nat>, i: nat, x: nat)
    requires ChainFrom(bufctl, f, chain) && i < |bufctl| && i !in chain
    ensures ChainFrom(bufctl[i := x], f, chain)
    decreases |chain|
  {
    if chain != [] {
      ChainKept(bufctl, bufctl[f], chain[1..], i, x);
    }
  }

  // The chain of a new slab visits every index in order.
  function Range(i: nat, n: nat): (s: seq<nat>)
    requires i <= n
    ensures |s| == n - i && forall k :: 0 <= k < |s| ==> s[k] == i + k
  {
    seq(n - i, k => i + k)
  }

  function FreshCtl(n: nat): (s: seq<nat>)
    ensures |s| == n && forall k :: 0 <= k < n ==> s[k] == if k + 1 < n then k + 1 else BUFCTL_END
  {
    seq(n, k => if k + 1 < n then k + 1 else BUFCTL_END)
  }

  lemma {:induction false} FreshChain(n: nat, i: nat)
    requires i < n
    ensures ChainFrom(FreshCtl(n), i, Range(i, n))
    decreases n - i
  {
    if i + 1 < n {
      FreshChain(n, i + 1);
      assert Range(i, n)[1..] == Range(i + 1, n);
    } else {
      assert Range(i, n)[1..] == [];
    }
  }

  // A chain as long as the slab, or one short, leaves no other index out.
  lemma AllOnChain(chain: seq<nat>, n: nat, i: nat, j: nat)
    requires NoDup(chain) && Under(chain, n) && |chain| == n - 1 && i < n && j < n && i !in chain && j != i
    ensures j in chain
  {
    if j !in chain {
      Pigeons(chain + [i, j], n);
    }
  }

  lemma {:induction false} Pigeons(s: seq<nat>, n: nat)
    requires NoDup(s) && Under(s, n)
    ensures |s| <= n
    decreases n
  {
    if s != [] {
      assert s[0] < n;
      if n - 1 in s {
        var k :| 0 <= k < |s| && s[k] == n - 1;
        Pigeons(s[..k] + s[k + 1..], n - 1);
      } else {
        Pigeons(s, n - 1);
      }
    }
  }

  // ---------- what holds between the steps ----------

  ghost predicate ConfOk(conf: Confs) {
    |conf| == SLAB_CACHE_NUM && forall i {:trigger WellLaid(conf[i], i)} :: 0 <= i < |conf| ==> WellLaid(conf[i], i)
  }

  // The chain from free visits each unallocated index once and ends in BUFCTL_END.
  ghost predicate SlabAt(conf: Confs, s: State, g: Books, b: Pg) {
    b in s.slabs && b in g.chain
    && var x, ch := s.slabs[b], g.chain[b];
       x.cache < |conf| && |x.bufctl| == conf[x.cache].num && |ch| + x.inuse == conf[x.cache].num
       && ChainFrom(x.bufctl, x.free, ch) && NoDup(ch) && Under(ch, conf[x.cache].num)
  }

  // A slab is on its cache's full list exactly if all its objects are allocated, and otherwise on the other list.
  ghost predicate PlacedAt(conf: Confs, s: State, b: Pg, c: nat)
    requires c < |conf| == |s.full| == |s.notfull|
  {
    (b in s.full[c] <==> b in s.slabs && s.slabs[b].cache == c && s.slabs[b].inuse == conf[c].num)
    && (b in s.notfull[c] <==> b in s.slabs && s.slabs[b].cache == c && s.slabs[b].inuse < conf[c].num)
  }

  ghost predicate ListsAt(s: State, c: nat)
    requires c < |s.full| == |s.notfull|
  {
    NoDup(s.full[c]) && NoDup(s.notfull[c])
  }

  // An object of an existing slab that is not on its free chain
  ghost predicate Taken(conf: Confs, s: State, g: Books, o: Obj) {
    o.base in s.slabs && o.base in g.chain && s.slabs[o.base].cache < |conf|
    && o.idx < conf[s.slabs[o.base].cache].num && o.idx !in g.chain[o.base]
  }

  ghost predicate UseAt(conf: Confs, s: State, g: Books, o: Obj) {
    (o in g.use <==> Taken(conf, s, g, o))
    && (o in g.users <==> o in g.use && g.use[o].User?)
    && (o in g.hands <==> o in g.use && g.use[o].Hand?)
    && (o in g.use && g.use[o].Control? ==> g.use[o].of in g.ctl && g.ctl[g.use[o].of] == o)
  }

  // An off-slab slab's control block is an object of the control cache; an on-slab slab has none.
  ghost predicate CtlAt(conf: Confs, s: State, g: Books, b: Pg) {
    b in s.slabs && s.slabs[b].cache < |conf|
    && var x := s.slabs[b]; var c := conf[x.cache];
       if c.offSlab then
         b in g.ctl && g.ctl[b] in g.use && g.use[g.ctl[b]] == Control(b) && g.ctl[b].base in s.slabs
         && s.slabs[g.ctl[b].base].cache == c.control < |conf| && x.ctl == Some(Addr(conf[c.control], g.ctl[b]))
       else b !in g.ctl && x.ctl.None?
  }

  predicate InSlab(conf: Confs, s: State, b: Pg, p: Pg) {
    b in s.slabs && s.slabs[b].cache < |conf| && p.z == b.z && b.i <= p.i < b.i + D.Pow2(conf[s.slabs[b].cache].order)
  }

  // GET_PAGE_SLAB is set on exactly the pages of the slabs.
  ghost predicate OwnerAt(conf: Confs, s: State, p: Pg) { p in s.owner && InSlab(conf, s, s.owner[p], p) }

  ghost predicate OwnedAt(conf: Confs, s: State, b: Pg, p: Pg) { InSlab(conf, s, b, p) ==> p in s.owner && s.owner[p] == b }

  // Between calls no slab is empty; a slab that has just been made is.
  ghost predicate BusyAt(s: State, b: Pg, hollow: Option<Pg>) { b in s.slabs && (s.slabs[b].inuse > 0 || hollow == Some(b)) }

  ghost predicate Inv(conf: Confs, s: State, g: Books, hollow: Option<Pg>) {
    ConfOk(conf) && |s.full| == |conf| && |s.notfull| == |conf|
    && (forall b {:trigger SlabAt(conf, s, g, b)} :: b in s.slabs ==> SlabAt(conf, s, g, b))
    && (forall c {:trigger ListsAt(s, c)} :: 0 <= c < |conf| ==> ListsAt(s, c))
    && (forall b, c {:trigger PlacedAt(conf, s, b, c)} :: 0 <= c < |conf| ==> PlacedAt(conf, s, b, c))
    && (forall o {:trigger UseAt(conf, s, g, o)} :: UseAt(conf, s, g, o))
    && (forall b {:trigger CtlAt(conf, s, g, b)} :: b in s.slabs ==> CtlAt(conf, s, g, b))
    && (forall b {:trigger b in g.ctl} :: b in g.ctl ==> b in s.slabs)
    && (forall p {:trigger OwnerAt(conf, s, p)} :: p in s.owner ==> OwnerAt(conf, s, p))
    && (forall b, p {:trigger OwnedAt(conf, s, b, p)} :: OwnedAt(conf, s, b, p))
    && (forall b {:trigger BusyAt(s, b, hollow)} :: b in s.slabs ==> BusyAt(s, b, hollow))
  }

  // The address of an object of a cache
  function Addr(c: Conf, o: Obj): Ptr { Ptr(o.base.z, o.base.i * PGSIZE + c.offset + o.idx * c.objsize) }

  // ---------- kmem_cache_alloc_one ----------

  function MoveToFull(s: State, b: Pg, c: nat): State
    requires c < |s.full| == |s.notfull|
  {
    s.(full := s.full[c := [b] + s.full[c]], notfull := s.notfull[c := Del(s.notfull[c], b)])
  }

  function Popped(s: State, b: Pg): State
    requires b in s.slabs && s.slabs[b].free < |s.slabs[b].bufctl| && s.slabs[b].cache < |s.full| == |s.notfull|
  {
    var x := s.slabs[b];
    var y := x.(inuse := x.inuse + 1, free := x.bufctl[x.free]);
    var t := s.(slabs := s.slabs[b := y]);
    if y.free == BUFCTL_END then MoveToFull(t, b, x.cache) else t
  }

  ghost function PoppedBooks(g: Books, b: Pg): Books
    requires b in g.chain && g.chain[b] != []
  {
    var o := Obj(b, g.chain[b][0]);
    g.(chain := g.chain[b := g.chain[b][1..]], use := g.use[o := Hand], hands := g.hands + {o})
  }

  // A slab with a free object
  lemma HasFree(conf: Confs, s: State, g: Books, hollow: Option<Pg>, b: Pg)
    requires Inv(conf, s, g, hollow) && b in s.slabs && s.slabs[b].cache < |conf|
             && s.slabs[b].inuse < conf[s.slabs[b].cache].num
    ensures b in g.chain && g.chain[b] != []
    ensures s.slabs[b].free == g.chain[b][0] < |s.slabs[b].bufctl| == conf[s.slabs[b].cache].num
    ensures s.slabs[b].cache < |s.full| && Obj(b, g.chain[b][0]) !in g.use
  {
    assert SlabAt(conf, s, g, b);
    assert UseAt(conf, s, g, Obj(b, g.chain[b][0]));
  }

  lemma PoppedSlab(conf: Confs, s: State, g: Books, hollow: Option<Pg>, b: Pg)
    requires Inv(conf, s, g, hollow) && b in s.slabs && s.slabs[b].cache < |conf|
             && s.slabs[b].inuse < conf[s.slabs[b].cache].num
    ensures b in g.chain && g.chain[b] != [] && s.slabs[b].free < |s.slabs[b].bufctl| && s.slabs[b].cache < |s.full|
    ensures SlabAt(conf, Popped(s, b), PoppedBooks(g, b), b)
    ensures Popped(s, b).slabs[b].free == BUFCTL_END <==> Popped(s, b).slabs[b].inuse == conf[s.slabs[b].cache].num
  {
    HasFree(conf, s, g, hollow, b);
    assert SlabAt(conf, s, g, b);
    assert WellLaid(conf[s.slabs[b].cache], s.slabs[b].cache);
    var ch := g.chain[b];
    assert ch[1..] != [] ==> ch[1..][0] == ch[1];
  }

  // Only slab b changed, and it stayed in its cache.
  ghost predicate OnlySlab(s: State, s': State, b: Pg) {
    s'.owner == s.owner && b in s.slabs && b in s'.slabs
    && s'.slabs[b].cache == s.slabs[b].cache && s'.slabs[b].ctl == s.slabs[b].ctl
    && forall d {:trigger d in s'.slabs} {:trigger d in s.slabs} ::
         (d in s'.slabs <==> d in s.slabs) && (d in s.slabs && d != b ==> s'.slabs[d] == s.slabs[d])
  }

  lemma OwnersKept(conf: Confs, s: State, s': State, g: Books, hollow: Option<Pg>, b: Pg)
    requires Inv(conf, s, g, hollow) && OnlySlab(s, s', b)
    ensures forall p {:trigger OwnerAt(conf, s', p)} :: p in s'.owner ==> OwnerAt(conf, s', p)
    ensures forall d, p {:trigger OwnedAt(conf, s', d, p)} :: OwnedAt(conf, s', d, p)
  {
    forall p | p in s'.owner ensures OwnerAt(conf, s', p) {
      assert OwnerAt(conf, s, p);
    }
    forall d, p ensures OwnedAt(conf, s', d, p) {
      assert OwnedAt(conf, s, d, p);
    }
  }

  // The lists of cache c, after slab b of it changed
  ghost predicate Relisted(conf: Confs, s: State, s': State, b: Pg, c: nat)
    requires c < |conf| == |s.full| == |s.notfull| == |s'.full| == |s'.notfull|
  {
    s'.full == s.full[c := s'.full[c]] && s'.notfull == s.notfull[c := s'.notfull[c]]
    && ListsAt(s', c) && PlacedAt(conf, s', b, c)
    && forall d :: d != b ==> (d in s'.full[c] <==> d in s.full[c]) && (d in s'.notfull[c] <==> d in s.notfull[c])
  }

  lemma ListsKept(conf: Confs, s: State, s': State, g: Books, hollow: Option<Pg>, b: Pg, c: nat)
    requires Inv(conf, s, g, hollow) && c < |conf| && |s'.full| == |conf| == |s'.notfull| && Relisted(conf, s, s', b, c)
    requires b in s.slabs ==> s.slabs[b].cache == c
    requires b in s'.slabs ==> s'.slabs[b].cache == c
    requires forall d :: d != b ==> (d in s'.slabs <==> d in s.slabs) && (d in s.slabs ==> s'.slabs[d] == s.slabs[d])
    ensures forall a {:trigger ListsAt(s', a)} :: 0 <= a < |conf| ==> ListsAt(s', a)
    ensures forall d, a {:trigger PlacedAt(conf, s', d, a)} :: 0 <= a < |conf| ==> PlacedAt(conf, s', d, a)
  {
    forall a | 0 <= a < |conf| ensures ListsAt(s', a) {
      assert ListsAt(s, a);
    }
    forall d, a | 0 <= a < |conf| ensures PlacedAt(conf, s', d, a) {
      assert PlacedAt(conf, s, d, a);
    }
  }

  lemma MovedToFull(s: State, b: Pg, c: nat)
    requires c < |s.full| == |s.notfull| && ListsAt(s, c) && b in s.notfull[c] && b !in s.full[c]
    ensures ListsAt(MoveToFull(s, b, c), c)
    ensures forall d :: (d in MoveToFull(s, b, c).full[c] <==> d == b || d in s.full[c])
                        && (d in MoveToFull(s, b, c).notfull[c] <==> d != b && d in s.notfull[c])
  {
    DelSpec(s.notfull[c], b);
  }

  lemma PoppedLists(conf: Confs, s: State, g: Books, hollow: Option<Pg>, b: Pg)
    requires Inv(conf, s, g, hollow) && b in s.slabs && s.slabs[b].cache < |conf|
             && s.slabs[b].inuse < conf[s.slabs[b].cache].num
    ensures s.slabs[b].free < |s.slabs[b].bufctl|
    ensures Relisted(conf, s, Popped(s, b), b, s.slabs[b].cache)
  {
    PoppedSlab(conf, s, g, hollow, b);
    var c := s.slabs[b].cache;
    assert PlacedAt(conf, s, b, c) && ListsAt(s, c);
    MovedToFull(s.(slabs := Popped(s, b).slabs), b, c);
  }

  lemma PoppedUse(conf: Confs, s: State, g: Books, hollow: Option<Pg>, b: Pg, o: Obj)
    requires Inv(conf, s, g, hollow) && b in s.slabs && s.slabs[b].cache < |conf|
             && s.slabs[b].inuse < conf[s.slabs[b].cache].num
    ensures b in g.chain && g.chain[b] != [] && s.slabs[b].free < |s.slabs[b].bufctl|
    ensures UseAt(conf, Popped(s, b), PoppedBooks(g, b), o)
  {
    HasFree(conf, s, g, hollow, b);
    assert SlabAt(conf, s, g, b);
    assert UseAt(conf, s, g, o);
    var ch := g.chain[b];
    assert ch == [ch[0]] + ch[1..];
    if o.base == b && o.idx != ch[0] {
      assert o.idx in ch <==> o.idx in ch[1..];
    }
  }

  lemma PoppedOther(conf: Confs, s: State, g: Books, hollow: Option<Pg>, b: Pg, d: Pg)
    requires Inv(conf, s, g, hollow) && (hollow.None? || hollow == Some(b)) && d in s.slabs
    requires b in s.slabs && s.slabs[b].cache < |conf| && s.slabs[b].inuse < conf[s.slabs[b].cache].num
    ensures b in g.chain && g.chain[b] != [] && s.slabs[b].free < |s.slabs[b].bufctl|
    ensures var s', g' := Popped(s, b), PoppedBooks(g, b);
            SlabAt(conf, s', g', d) && CtlAt(conf, s', g', d) && BusyAt(s', d, None)
  {
    HasFree(conf, s, g, hollow, b);
    PoppedSlab(conf, s, g, hollow, b);
    assert SlabAt(conf, s, g, d) && CtlAt(conf, s, g, d) && BusyAt(s, d, hollow);
  }

  // kmem_cache_alloc_one
  lemma PoppedInv(conf: Confs, s: State, g: Books, hollow: Option<Pg>, b: Pg)
    requires Inv(conf, s, g, hollow) && (hollow.None? || hollow == Some(b))
    requires b in s.slabs && s.slabs[b].cache < |conf| && s.slabs[b].inuse < conf[s.slabs[b].cache].num
    ensures b in g.chain && g.chain[b] != [] && s.slabs[b].free < |s.slabs[b].bufctl|
    ensures Inv(conf, Popped(s, b), PoppedBooks(g, b), None)
  {
    HasFree(conf, s, g, hollow, b);
    var s', g' := Popped(s, b), PoppedBooks(g, b);
    PoppedSlab(conf, s, g, hollow, b);
    PoppedLists(conf, s, g, hollow, b);
    ListsKept(conf, s, s', g, hollow, b, s.slabs[b].cache);
    OwnersKept(conf, s, s', g, hollow, b);
    forall d | d in s'.slabs ensures SlabAt(conf, s', g', d) && CtlAt(conf, s', g', d) && BusyAt(s', d, None) {
      PoppedOther(conf, s, g, hollow, b, d);
    }
    forall o ensures UseAt(conf, s', g', o) {
      PoppedUse(conf, s, g, hollow, b, o);
    }
  }

  // A popped object is given to the caller, or becomes a control block.
  ghost function HandedBooks(g: Books, o: Obj): Books {
    g.(use := g.use[o := User], hands := g.hands - {o}, users := g.users + {o})
  }

  lemma HandedInv(conf: Confs, s: State, g: Books, o: Obj)
    requires Inv(conf, s, g, None) && o in g.hands
    ensures Inv(conf, s, HandedBooks(g, o), None)
  {
    var g' := HandedBooks(g, o);
    assert UseAt(conf, s, g, o);
    forall d | d in s.slabs ensures SlabAt(conf, s, g', d) && CtlAt(conf, s, g', d) {
      assert SlabAt(conf, s, g, d) && CtlAt(conf, s, g, d);
    }
    forall x ensures UseAt(conf, s, g', x) {
      assert UseAt(conf, s, g, x);
    }
  }

  // ---------- kmem_cache_grow ----------

  function SlabPages(b: Pg, order: nat): map<Pg, Pg> { map j | b.i <= j < b.i + D.Pow2(order) :: Pg(b.z, j) := b }

  function Added(s: State, b: Pg, c: nat, k: Conf, ctl: Option<Ptr>): State
    requires c < |s.notfull|
  {
    s.(slabs := s.slabs[b := Slab(c, 0, 0, FreshCtl(k.num), ctl)],
       owner := s.owner + SlabPages(b, k.order),
       notfull := s.notfull[c := [b] + s.notfull[c]])
  }

  ghost function AddedBooks(g: Books, b: Pg, k: Conf, o: Option<Obj>): Books {
    var h := g.(chain := g.chain[b := Range(0, k.num)]);
    if o.None? then h
    else h.(ctl := h.ctl[b := o.value], use := h.use[o.value := Control(b)], hands := h.hands - {o.value})
  }

  // The new slab's pages belong to no slab, and its control block, if it is off-slab, is an object in hand.
  ghost predicate MayAdd(conf: Confs, s: State, g: Books, b: Pg, c: nat, ctl: Option<Ptr>, o: Option<Obj>) {
    c < |conf| && (forall p :: p in SlabPages(b, conf[c].order) ==> p !in s.owner)
    && if conf[c].offSlab
       then conf[c].control < |conf| && o.Some? && o.value in g.hands && o.value.base in s.slabs
            && s.slabs[o.value.base].cache == conf[c].control && ctl == Some(Addr(conf[conf[c].control], o.value))
       else o.None? && ctl.None?
  }

  lemma NewSlab(conf: Confs, s: State, g: Books, b: Pg, c: nat, ctl: Option<Ptr>, o: Option<Obj>)
    requires Inv(conf, s, g, None) && MayAdd(conf, s, g, b, c, ctl, o)
    ensures b !in s.slabs && b !in g.ctl && forall i: nat :: Obj(b, i) !in g.use
  {
    assert b == Pg(b.z, b.i) && b in SlabPages(b, conf[c].order);
    assert b in s.slabs ==> SlabAt(conf, s, g, b);
    assert OwnedAt(conf, s, b, b);
    forall i: nat ensures Obj(b, i) !in g.use {
      assert UseAt(conf, s, g, Obj(b, i));
    }
  }

  lemma AddedOwners(conf: Confs, s: State, g: Books, b: Pg, c: nat, ctl: Option<Ptr>, o: Option<Obj>)
    requires Inv(conf, s, g, None) && MayAdd(conf, s, g, b, c, ctl, o) && b !in s.slabs
    ensures c < |s.notfull|
    ensures var s' := Added(s, b, c, conf[c], ctl);
            (forall p {:trigger OwnerAt(conf, s', p)} :: p in s'.owner ==> OwnerAt(conf, s', p))
            && forall d, p {:trigger OwnedAt(conf, s', d, p)} :: OwnedAt(conf, s', d, p)
  {
    var s' := Added(s, b, c, conf[c], ctl);
    forall p | p in s'.owner ensures OwnerAt(conf, s', p) {
      if p !in SlabPages(b, conf[c].order) {
        assert OwnerAt(conf, s, p);
      }
    }
    forall d, p ensures OwnedAt(conf, s', d, p) {
      assert OwnedAt(conf, s, d, p);
      if d == b && InSlab(conf, s', b, p) {
        assert p == Pg(b.z, p.i) && p in SlabPages(b, conf[c].order);
      }
    }
  }

  lemma AddedUse(conf: Confs, s: State, g: Books, b: Pg, c: nat, ctl: Option<Ptr>, o: Option<Obj>, x: Obj)
    requires Inv(conf, s, g, None) && MayAdd(conf, s, g, b, c, ctl, o) && b !in s.slabs && b !in g.ctl
    requires x.base == b ==> x !in g.use
    ensures c < |s.notfull|
    ensures UseAt(conf, Added(s, b, c, conf[c], ctl), AddedBooks(g, b, conf[c], o), x)
  {
    assert UseAt(conf, s, g, x);
    if o.Some? {
      assert UseAt(conf, s, g, o.value);
    }
    if x.base == b {
      assert x.idx < conf[c].num ==> Range(0, conf[c].num)[x.idx] == x.idx;
    }
  }

  lemma AddedLists(conf: Confs, s: State, g: Books, b: Pg, c: nat, ctl: Option<Ptr>)
    requires Inv(conf, s, g, None) && c < |conf| && b !in s.slabs
    ensures c < |s.notfull| && Relisted(conf, s, Added(s, b, c, conf[c], ctl), b, c)
  {
    assert PlacedAt(conf, s, b, c) && ListsAt(s, c) && WellLaid(conf[c], c);
  }

  lemma AddedOther(conf: Confs, s: State, g: Books, b: Pg, c: nat, ctl: Option<Ptr>, o: Option<Obj>, d: Pg)
    requires Inv(conf, s, g, None) && MayAdd(conf, s, g, b, c, ctl, o) && b !in s.slabs && b !in g.ctl && d in s.slabs
    ensures c < |s.notfull|
    ensures var s', g' := Added(s, b, c, conf[c], ctl), AddedBooks(g, b, conf[c], o);
            SlabAt(conf, s', g', d) && CtlAt(conf, s', g', d) && BusyAt(s', d, Some(b))
  {
    assert SlabAt(conf, s, g, d) && CtlAt(conf, s, g, d) && BusyAt(s, d, None);
    assert o.Some? ==> UseAt(conf, s, g, o.value);
  }

  lemma AddedNew(conf: Confs, s: State, g: Books, b: Pg, c: nat, ctl: Option<Ptr>, o: Option<Obj>)
    requires Inv(conf, s, g, None) && MayAdd(conf, s, g, b, c, ctl, o) && b !in s.slabs && b !in g.ctl
    requires forall i: nat :: Obj(b, i) !in g.use
    ensures c < |s.notfull|
    ensures var s', g' := Added(s, b, c, conf[c], ctl), AddedBooks(g, b, conf[c], o);
            SlabAt(conf, s', g', b) && CtlAt(conf, s', g', b) && BusyAt(s', b, Some(b))
  {
    assert WellLaid(conf[c], c);
    FreshChain(conf[c].num, 0);
  }

  // A new slab, empty and at the front of its cache's list
  lemma AddedInv(conf: Confs, s: State, g: Books, b: Pg, c: nat, ctl: Option<Ptr>, o: Option<Obj>)
    requires Inv(conf, s, g, None) && MayAdd(conf, s, g, b, c, ctl, o)
    ensures c < |s.notfull| && Inv(conf, Added(s, b, c, conf[c], ctl), AddedBooks(g, b, conf[c], o), Some(b))
  {
    NewSlab(conf, s, g, b, c, ctl, o);
    var s', g' := Added(s, b, c, conf[c], ctl), AddedBooks(g, b, conf[c], o);
    AddedLists(conf, s, g, b, c, ctl);
    ListsKept(conf, s, s', g, None, b, c);
    AddedOwners(conf, s, g, b, c, ctl, o);
    forall d | d in s'.slabs ensures SlabAt(conf, s', g', d) && CtlAt(conf, s', g', d) && BusyAt(s', d, Some(b)) {
      if d != b {
        AddedOther(conf, s, g, b, c, ctl, o, d);
      } else {
        AddedNew(conf, s, g, b, c, ctl, o);
      }
    }
    forall x ensures UseAt(conf, s', g', x) {
      AddedUse(conf, s, g, b, c, ctl, o, x);
    }
  }

  // ---------- kmem_cache_free_one ----------

  function MoveToNotfull(s: State, b: Pg, c: nat): State
    requires c < |s.full| == |s.notfull|
  {
    s.(notfull := s.notfull[c := [b] + s.notfull[c]], full := s.full[c := Del(s.full[c], b)])
  }

  // An object goes back to the front of the chain of a slab that keeps others.
  function Pushed(conf: Confs, s: State, o: Obj): State
    requires o.base in s.slabs && o.idx < |s.slabs[o.base].bufctl| && s.slabs[o.base].inuse > 0
    requires s.slabs[o.base].cache < |s.full| == |s.notfull| == |conf|
  {
    var x := s.slabs[o.base];
    var t := s.(slabs := s.slabs[o.base := x.(bufctl := x.bufctl[o.idx := x.free], free := o.idx, inuse := x.inuse - 1)]);
    if x.inuse == conf[x.cache].num then MoveToNotfull(t, o.base, x.cache) else t
  }

  ghost function PushedBooks(g: Books, o: Obj): Books
    requires o.base in g.chain
  {
    g.(chain := g.chain[o.base := [o.idx] + g.chain[o.base]], use := g.use - {o}, users := g.users - {o}, hands := g.hands - {o})
  }

  // An allocated object that controls no slab
  ghost predicate MayFree(conf: Confs, s: State, g: Books, o: Obj) { o in g.use && !g.use[o].Control? }

  lemma InUse(conf: Confs, s: State, g: Books, o: Obj)
    requires Inv(conf, s, g, None) && o in g.use
    ensures o.base in s.slabs && o.base in g.chain && s.slabs[o.base].cache < |conf| == |s.full| == |s.notfull|
    ensures o.idx < |s.slabs[o.base].bufctl| == conf[s.slabs[o.base].cache].num
            && 0 < s.slabs[o.base].inuse <= |s.slabs[o.base].bufctl|
    ensures o.idx !in g.chain[o.base]
  {
    assert UseAt(conf, s, g, o);
    assert SlabAt(conf, s, g, o.base) && BusyAt(s, o.base, None);
  }

  lemma PushedSlab(conf: Confs, s: State, g: Books, o: Obj)
    requires Inv(conf, s, g, None) && o in g.use
    ensures o.base in s.slabs && o.base in g.chain && s.slabs[o.base].cache < |conf| == |s.full| == |s.notfull|
    ensures o.idx < |s.slabs[o.base].bufctl| && s.slabs[o.base].inuse > 0
    ensures SlabAt(conf, Pushed(conf, s, o), PushedBooks(g, o), o.base)
  {
    InUse(conf, s, g, o);
    var b := o.base;
    assert SlabAt(conf, s, g, b);
    var x, ch := s.slabs[b], g.chain[b];
    ChainKept(x.bufctl, x.free, ch, o.idx, x.free);
    assert ([o.idx] + ch)[1..] == ch;
  }

  lemma MovedToNotfull(s: State, b: Pg, c: nat)
    requires c < |s.full| == |s.notfull| && ListsAt(s, c) && b in s.full[c] && b !in s.notfull[c]
    ensures ListsAt(MoveToNotfull(s, b, c), c)
    ensures forall d :: (d in MoveToNotfull(s, b, c).notfull[c] <==> d == b || d in s.notfull[c])
                        && (d in MoveToNotfull(s, b, c).full[c] <==> d != b && d in s.full[c])
  {
    DelSpec(s.full[c], b);
  }

  lemma PushedLists(conf: Confs, s: State, g: Books, o: Obj)
    requires Inv(conf, s, g, None) && o in g.use
    ensures o.base in s.slabs && o.idx < |s.slabs[o.base].bufctl| && s.slabs[o.base].inuse > 0
    ensures s.slabs[o.base].cache < |conf| == |s.full| == |s.notfull|
    ensures Relisted(conf, s, Pushed(conf, s, o), o.base, s.slabs[o.base].cache)
  {
    InUse(conf, s, g, o);
    var b, c := o.base, s.slabs[o.base].cache;
    assert PlacedAt(conf, s, b, c) && ListsAt(s, c);
    if s.slabs[b].inuse == conf[c].num {
      MovedToNotfull(s.(slabs := Pushed(conf, s, o).slabs), b, c);
    }
  }

  lemma PushedInv(conf: Confs, s: State, g: Books, o: Obj)
    requires Inv(conf, s, g, None) && MayFree(conf, s, g, o) && o.base in s.slabs && s.slabs[o.base].inuse > 1
    ensures o.base in g.chain && s.slabs[o.base].cache < |conf| == |s.full| == |s.notfull|
            && o.idx < |s.slabs[o.base].bufctl|
    ensures Inv(conf, Pushed(conf, s, o), PushedBooks(g, o), None)
  {
    InUse(conf, s, g, o);
    PushedSlab(conf, s, g, o);
    PushedLists(conf, s, g, o);
    var b, s', g' := o.base, Pushed(conf, s, o), PushedBooks(g, o);
    ListsKept(conf, s, s', g, None, b, s.slabs[b].cache);
    OwnersKept(conf, s, s', g, None, b);
    forall d | d in s'.slabs ensures SlabAt(conf, s', g', d) && CtlAt(conf, s', g', d) && BusyAt(s', d, None) {
      PushedOther(conf, s, g, o, d);
    }
    forall x ensures UseAt(conf, s', g', x) {
      PushedUse(conf, s, g, o, x);
    }
  }

  lemma PushedOther(conf: Confs, s: State, g: Books, o: Obj, d: Pg)
    requires Inv(conf, s, g, None) && MayFree(conf, s, g, o) && o.base in s.slabs && s.slabs[o.base].inuse > 1
             && d in s.slabs
    ensures o.base in g.chain && s.slabs[o.base].cache < |conf| == |s.full| == |s.notfull|
            && o.idx < |s.slabs[o.base].bufctl|
    ensures var s', g' := Pushed(conf, s, o), PushedBooks(g, o);
            SlabAt(conf, s', g', d) && CtlAt(conf, s', g', d) && BusyAt(s', d, None)
  {
    InUse(conf, s, g, o);
    PushedSlab(conf, s, g, o);
    assert SlabAt(conf, s, g, d) && CtlAt(conf, s, g, d) && BusyAt(s, d, None);
  }

  lemma PushedUse(conf: Confs, s: State, g: Books, o: Obj, x: Obj)
    requires Inv(conf, s, g, None) && MayFree(conf, s, g, o)
    ensures o.base in s.slabs && o.base in g.chain && s.slabs[o.base].cache < |conf| == |s.full| == |s.notfull|
    ensures o.idx < |s.slabs[o.base].bufctl| && s.slabs[o.base].inuse > 0
    ensures UseAt(conf, Pushed(conf, s, o), PushedBooks(g, o), x)
  {
    InUse(conf, s, g, o);
    assert UseAt(conf, s, g, x);
  }

  // ---------- kmem_slab_destroy ----------

  // A slab whose last object goes is taken off its list and gives up its pages.
  function Gone(s: State, b: Pg): State
    requires b in s.slabs && s.slabs[b].cache < |s.full| == |s.notfull|
  {
    var c := s.slabs[b].cache;
    State(s.slabs - {b}, map p | p in s.owner && s.owner[p] != b :: s.owner[p],
          s.full[c := Del(s.full[c], b)], s.notfull[c := Del(s.notfull[c], b)])
  }

  // Its control block, if it has one, is in hand.
  ghost function GoneBooks(g: Books, o: Obj): Books {
    var b := o.base;
    var h := g.(chain := g.chain - {b}, use := g.use - {o}, users := g.users - {o}, hands := g.hands - {o}, ctl := g.ctl - {b});
    if b in g.ctl then h.(use := h.use[g.ctl[b] := Hand], hands := h.hands + {g.ctl[b]}) else h
  }

  lemma GoneLists(conf: Confs, s: State, g: Books, b: Pg)
    requires Inv(conf, s, g, None) && b in s.slabs && s.slabs[b].cache < |conf|
    ensures Relisted(conf, s, Gone(s, b), b, s.slabs[b].cache)
  {
    var c := s.slabs[b].cache;
    assert PlacedAt(conf, s, b, c) && ListsAt(s, c);
    DelAny(s.full[c], b);
    DelAny(s.notfull[c], b);
  }

  lemma GoneOwners(conf: Confs, s: State, g: Books, b: Pg)
    requires Inv(conf, s, g, None) && b in s.slabs && s.slabs[b].cache < |conf|
    ensures var s' := Gone(s, b);
            (forall p {:trigger OwnerAt(conf, s', p)} :: p in s'.owner ==> OwnerAt(conf, s', p))
            && forall d, p {:trigger OwnedAt(conf, s', d, p)} :: OwnedAt(conf, s', d, p)
  {
    var s' := Gone(s, b);
    forall p | p in s'.owner ensures OwnerAt(conf, s', p) {
      assert OwnerAt(conf, s, p);
    }
    forall d, p ensures OwnedAt(conf, s', d, p) {
      assert OwnedAt(conf, s, d, p);
    }
  }

  // The last object of a slab is the only one allocated there.
  lemma OnlyOne(conf: Confs, s: State, g: Books, o: Obj, x: Obj)
    requires Inv(conf, s, g, None) && o in g.use && o.base in s.slabs && s.slabs[o.base].inuse == 1
             && x.base == o.base && x in g.use
    ensures x == o
  {
    InUse(conf, s, g, o);
    InUse(conf, s, g, x);
    assert SlabAt(conf, s, g, o.base);
    if x != o {
      AllOnChain(g.chain[o.base], conf[s.slabs[o.base].cache].num, o.idx, x.idx);
    }
  }

  // The control block of a slab is an object of a slab in another cache.
  lemma CtlElsewhere(conf: Confs, s: State, g: Books, b: Pg)
    requires Inv(conf, s, g, None) && b in g.ctl
    ensures b in s.slabs && g.ctl[b] in g.use && g.use[g.ctl[b]] == Control(b) && g.ctl[b].base in s.slabs
            && g.ctl[b].base != b
    ensures s.slabs[b].cache < |conf| && s.slabs[b].cache >= 4 > s.slabs[g.ctl[b].base].cache
    ensures s.slabs[b].ctl == Some(Addr(conf[s.slabs[g.ctl[b].base].cache], g.ctl[b]))
  {
    assert CtlAt(conf, s, g, b) && SlabAt(conf, s, g, b);
    assert WellLaid(conf[s.slabs[b].cache], s.slabs[b].cache);
  }

  lemma GoneUse(conf: Confs, s: State, g: Books, o: Obj, x: Obj)
    requires Inv(conf, s, g, None) && MayFree(conf, s, g, o) && o.base in s.slabs && s.slabs[o.base].inuse == 1
    ensures s.slabs[o.base].cache < |s.full| == |s.notfull|
    ensures UseAt(conf, Gone(s, o.base), GoneBooks(g, o), x)
  {
    InUse(conf, s, g, o);
    assert UseAt(conf, s, g, x);
    var b := o.base;
    if b in g.ctl {
      CtlElsewhere(conf, s, g, b);
      InUse(conf, s, g, g.ctl[b]);
    }
    if x in g.use && x.base == b {
      OnlyOne(conf, s, g, o, x);
    }
  }

  lemma GoneCtl(conf: Confs, s: State, g: Books, o: Obj, d: Pg)
    requires Inv(conf, s, g, None) && MayFree(conf, s, g, o) && o.base in s.slabs && s.slabs[o.base].inuse == 1
    requires d in s.slabs && d != o.base
    ensures s.slabs[o.base].cache < |s.full| == |s.notfull|
    ensures CtlAt(conf, Gone(s, o.base), GoneBooks(g, o), d)
  {
    InUse(conf, s, g, o);
    assert CtlAt(conf, s, g, d);
    if o.base in g.ctl {
      CtlElsewhere(conf, s, g, o.base);
    }
    if d in g.ctl && g.ctl[d].base == o.base {
      OnlyOne(conf, s, g, o, g.ctl[d]);
    }
  }

  lemma GoneInv(conf: Confs, s: State, g: Books, o: Obj)
    requires Inv(conf, s, g, None) && MayFree(conf, s, g, o) && o.base in s.slabs && s.slabs[o.base].inuse == 1
    ensures s.slabs[o.base].cache < |s.full| == |s.notfull|
    ensures Inv(conf, Gone(s, o.base), GoneBooks(g, o), None)
  {
    InUse(conf, s, g, o);
    var b, s', g' := o.base, Gone(s, o.base), GoneBooks(g, o);
    GoneLists(conf, s, g, b);
    ListsKept(conf, s, s', g, None, b, s.slabs[b].cache);
    GoneOwners(conf, s, g, b);
    forall d | d in s'.slabs ensures SlabAt(conf, s', g', d) && CtlAt(conf, s', g', d) && BusyAt(s', d, None) {
      assert SlabAt(conf, s, g, d) && BusyAt(s, d, None);
      GoneCtl(conf, s, g, o, d);
    }
    forall x ensures UseAt(conf, s', g', x) {
      GoneUse(conf, s, g, o, x);
    }
  }

  // ---------- what the invariant says ----------

  lemma {:induction false} SomeMissing(chain: seq<nat>, n: nat) returns (i: nat)
    requires |chain| < n
    ensures i < n && i !in chain
    decreases n
  {
    if n - 1 !in chain {
      i := n - 1;
    } else {
      var k :| 0 <= k < |chain| && chain[k] == n - 1;
      var rest := chain[..k] + chain[k + 1..];
      i := SomeMissing(rest, n - 1);
      assert forall m :: 0 <= m < |chain| && m != k ==> chain[m] in rest;
    }
  }

  // Every slab holds an allocated object.
  lemma SomeObject(conf: Confs, s: State, g: Books, b: Pg) returns (o: Obj)
    requires Inv(conf, s, g, None) && b in s.slabs
    ensures o in g.use && o.base == b
  {
    assert SlabAt(conf, s, g, b) && BusyAt(s, b, None);
    var i := SomeMissing(g.chain[b], conf[s.slabs[b].cache].num);
    o := Obj(b, i);
    assert UseAt(conf, s, g, o);
  }

  // A slab exists only because a caller holds one of its objects, or one of a slab that it controls.
  lemma Served(conf: Confs, s: State, g: Books, b: Pg) returns (o: Obj)
    requires Inv(conf, s, g, None) && g.hands == {} && b in s.slabs
    ensures o in g.users && (o.base == b || (o.base in g.ctl && g.ctl[o.base].base == b))
  {
    o := SomeObject(conf, s, g, b);
    assert UseAt(conf, s, g, o);
    if o !in g.users {
      var d := g.use[o].of;
      CtlElsewhere(conf, s, g, d);
      o := SomeObject(conf, s, g, d);
      assert UseAt(conf, s, g, o);
      assert g.use[o].Control? ==> g.use[o].of in g.ctl;
      if g.use[o].Control? {
        CtlElsewhere(conf, s, g, g.use[o].of);
      }
    }
  }

  // When every object has been freed no slab is left, on any list or page.
  lemma AllFreed(conf: Confs, s: State, g: Books)
    requires Inv(conf, s, g, None) && g.users == {} && g.hands == {}
    ensures s.slabs == map[] && s.owner == map[] && forall c :: 0 <= c < |conf| ==> s.full[c] == [] && s.notfull[c] == []
  {
    assert forall p :: p in s.owner ==> OwnerAt(conf, s, p);
    if b :| b in s.slabs {
      var o := Served(conf, s, g, b);
    }
    forall c | 0 <= c < |conf| ensures s.full[c] == [] && s.notfull[c] == [] {
      assert |s.full[c]| > 0 ==> PlacedAt(conf, s, s.full[c][0], c);
      assert |s.notfull[c]| > 0 ==> PlacedAt(conf, s, s.notfull[c][0], c);
    }
  }

  // The bytes [lo, hi) of a zone
  datatype Bytes = Bytes(z: nat, lo: nat, hi: nat)

  predicate Separate(a: Bytes, b: Bytes) { a.z != b.z || a.hi <= b.lo || b.hi <= a.lo }

  function BytesOf(conf: Confs, s: State, o: Obj): Bytes
    requires o.base in s.slabs && s.slabs[o.base].cache < |conf|
  {
    var c := conf[s.slabs[o.base].cache];
    Bytes(o.base.z, Addr(c, o).byte, Addr(c, o).byte + c.objsize)
  }

  function BytesOfSlab(conf: Confs, s: State, b: Pg): Bytes
    requires b in s.slabs && s.slabs[b].cache < |conf|
  {
    Bytes(b.z, b.i * PGSIZE, b.i * PGSIZE + SlabSize(conf[s.slabs[b].cache].order))
  }

  // The control block of an on-slab slab
  function BytesOfControl(conf: Confs, s: State, b: Pg): Bytes
    requires b in s.slabs && s.slabs[b].cache < |conf|
  {
    Bytes(b.z, b.i * PGSIZE, b.i * PGSIZE + MgmtSize(conf[s.slabs[b].cache].num))
  }

  lemma ObjectInSlab(conf: Confs, s: State, g: Books, o: Obj)
    requires Inv(conf, s, g, None) && o in g.use
    ensures o.base in s.slabs && s.slabs[o.base].cache < |conf|
    ensures var x, y := BytesOf(conf, s, o), BytesOfSlab(conf, s, o.base); y.lo <= x.lo <= x.hi <= y.hi
  {
    InUse(conf, s, g, o);
    var c := conf[s.slabs[o.base].cache];
    Roomy(conf, s.slabs[o.base].cache);
    LastByte(c.offset, o.idx, c.num, c.objsize, SlabSize(c.order));
  }

  lemma Roomy(conf: Confs, i: nat)
    requires ConfOk(conf) && i < |conf|
    ensures conf[i].offset + conf[i].num * conf[i].objsize <= SlabSize(conf[i].order)
  {
    assert WellLaid(conf[i], i);
  }

  lemma LastByte(offset: nat, idx: nat, num: nat, objsize: nat, size: nat)
    requires idx < num && offset + num * objsize <= size
    ensures offset + idx * objsize + objsize <= size
  {
    MulMono(idx + 1, num, objsize);
    D.NextMultiple(idx, objsize);
  }

  lemma SlabsApart(conf: Confs, s: State, g: Books, a: Pg, b: Pg)
    requires Inv(conf, s, g, None) && a in s.slabs && b in s.slabs && a != b
    ensures s.slabs[a].cache < |conf| && s.slabs[b].cache < |conf|
            && Separate(BytesOfSlab(conf, s, a), BytesOfSlab(conf, s, b))
  {
    assert SlabAt(conf, s, g, a) && SlabAt(conf, s, g, b);
    var n, m := D.Pow2(conf[s.slabs[a].cache].order), D.Pow2(conf[s.slabs[b].cache].order);
    if a.z == b.z {
      if a.i <= b.i {
        assert OwnedAt(conf, s, a, b) && OwnedAt(conf, s, b, b);
        MulMono(a.i + n, b.i, PGSIZE);
      } else {
        assert OwnedAt(conf, s, b, a) && OwnedAt(conf, s, a, a);
        MulMono(b.i + m, a.i, PGSIZE);
      }
    }
  }

  // Allocated objects never overlap one another, whether callers' or control blocks, nor any slab's own control block.
  lemma ObjectsApart(conf: Confs, s: State, g: Books, o: Obj, x: Obj)
    requires Inv(conf, s, g, None) && o in g.use && x in g.use && o != x
    ensures o.base in s.slabs && s.slabs[o.base].cache < |conf| && x.base in s.slabs && s.slabs[x.base].cache < |conf|
    ensures Separate(BytesOf(conf, s, o), BytesOf(conf, s, x))
  {
    ObjectInSlab(conf, s, g, o);
    ObjectInSlab(conf, s, g, x);
    if o.base == x.base {
      var z := conf[s.slabs[o.base].cache].objsize;
      var i, j := if o.idx < x.idx then o.idx else x.idx, if o.idx < x.idx then x.idx else o.idx;
      MulMono(i + 1, j, z);
      D.NextMultiple(i, z);
    } else {
      SlabsApart(conf, s, g, o.base, x.base);
    }
  }

  lemma ControlInSlab(c: Conf, i: nat)
    requires WellLaid(c, i) && !c.offSlab
    ensures c.offset == MgmtSize(c.num) <= SlabSize(c.order)
  {
  }

  lemma AfterOffset(c: Conf, o: Obj)
    ensures o.base.i * PGSIZE + c.offset <= Addr(c, o).byte
  {
  }

  lemma ControlApart(conf: Confs, s: State, g: Books, o: Obj, b: Pg)
    requires Inv(conf, s, g, None) && o in g.use && b in s.slabs && s.slabs[b].cache < |conf|
             && !conf[s.slabs[b].cache].offSlab
    ensures o.base in s.slabs && s.slabs[o.base].cache < |conf|
    ensures Separate(BytesOf(conf, s, o), BytesOfControl(conf, s, b))
  {
    ObjectInSlab(conf, s, g, o);
    assert SlabAt(conf, s, g, b);
    ControlInSlab(conf[s.slabs[b].cache], s.slabs[b].cache);
    if o.base != b {
      SlabsApart(conf, s, g, o.base, b);
    } else {
      AfterOffset(conf[s.slabs[b].cache], o);
    }
  }
}
