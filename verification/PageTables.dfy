/**
 arch/x86/pmm.c and the page fault path of kern/mm/vmm.c, on the state of module PageState.
 */
module PageTables {
  import opened Options
  import opened Units
  import opened PageState
  import opened AreaLists
  import opened AreaPages

  // A page table or chunk may be new; what a caller holds has not changed.
  ghost predicate GrewOnly(s: State, b: Books, s': State, b': Books) {
    s' == s.(free := s'.free, ref := s'.ref, own := s'.own)
    && b'.users == b.users
    && (forall o :: o in s.own ==> o in s'.own && s'.own[o] == s.own[o])
    && (forall p :: p in b.kind ==> p in b'.kind && (!b.kind[p].Free? ==> b'.kind[p] == b.kind[p]))
  }

  // What page_insert's callers know about the page: fresh, or safe to share, or already there
  ghost predicate MayInsert(s: State, b: Books, l: Loc, p: Page, w: bool) {
    p in s.pages && p in b.kind && l in s.area
    && if l in s.pte && s.pte[l].page == p then MayRelink(s, b, l, w)
       else if l in s.pte then s.area[l].back.Private? && b.kind[p].Hand? && (w ==> s.area[l].write)
       else match s.area[l].back
            case Private =>
              (w ==> s.area[l].write && b.kind[p].Hand?)
              && (b.kind[p].Hand?
                  || (b.kind[p].Priv? && p in b.users && forall k :: k in b.users[p] ==> k in s.pte && !s.pte[k].w))
            case Shared(e) => b.kind[p] == Shm(e) && w == s.area[l].write
  }

  ghost predicate InsertReady(s: State, l: Loc) { l in s.pte ==> s.pte[l].page in s.ref }

  // After replacing an entry by a page in hand, or linking where nothing was
  lemma InsertKeeps(s: State, b: Books, v: View, l: Loc, p: Page, w: bool)
    requires Inv(s, b) && Refines(s, v) && MayInsert(s, b, l, p, w) && Table(l.a, Pdx(l.v)) in s.own
    ensures p in s.ref && p in s.mem && (l in s.pte ==> PteOk(s, b, l) && s.pte[l].page in s.ref)
    ensures Inv(Inserted(s, l, p, w), BooksInserted(s, b, l, p))
    ensures Refines(Inserted(s, l, p, w), ViewInserted(s, v, l, p))
  {
    assert PageOk(s, b, p);
    if l !in s.pte {
      LinkKeeps(s, b, l, p, w);
      LinkView(s, v, l, p, w);
    } else {
      assert PteOk(s, b, l);
      assert PageOk(s, b, s.pte[l].page);
      if s.pte[l].page == p {
        RelinkKeeps(s, b, l, w);
        RelinkView(s, v, l, w);
        assert Shows(s, v, l);
        assert s.area[l].back.Private? ==> v.priv[l := s.mem[p]] == v.priv;
        assert s.area[l].back.Shared? ==> v.att + {l} == v.att;
      } else {
        ReplaceKeeps(s, b, v, l, p, w);
      }
    }
  }

  ghost function BooksInserted(s: State, b: Books, l: Loc, p: Page): Books {
    if l in s.pte && s.pte[l].page == p then b
    else
      var b0 := if l in s.pte && s.pte[l].page in b.users && s.pte[l].page in b.kind
                then BooksRemoved(b, l, s.pte[l].page) else b;
      if p in b0.users && p in b0.kind then BooksLinked(b0, l, p) else b0
  }

  ghost function ViewInserted(s: State, v: View, l: Loc, p: Page): View
    requires l in s.area && p in s.mem
  {
    if s.area[l].back.Private? then v.(priv := v.priv[l := s.mem[p]]) else v.(att := v.att + {l})
  }

  lemma ReplaceKeeps(s: State, b: Books, v: View, l: Loc, p: Page, w: bool)
    requires Inv(s, b) && Refines(s, v) && MayInsert(s, b, l, p, w) && Table(l.a, Pdx(l.v)) in s.own
    requires l in s.pte && s.pte[l].page != p && PteOk(s, b, l) && PageOk(s, b, s.pte[l].page) && PageOk(s, b, p)
    ensures Inv(Inserted(s, l, p, w), BooksInserted(s, b, l, p))
    ensures Refines(Inserted(s, l, p, w), ViewInserted(s, v, l, p))
  {
    RemoveKeeps(s, b, l);
    RemoveView(s, v, l);
    var s0, b0 := Removed(s, l), BooksRemoved(b, l, s.pte[l].page);
    var v0 := v.(priv := v.priv - {l}, att := v.att - {l});
    LinkKeeps(s0, b0, l, p, w);
    LinkView(s0, v0, l, p, w);
    assert Shows(s, v, l);
    assert v0.priv[l := s.mem[p]] == v.priv[l := s.mem[p]];
    assert v.att - {l} == v.att;
  }

  lemma GrowthKeeps(s: State, b: Books, s': State, b': Books, l: Loc, p: Page, w: bool)
    requires MayInsert(s, b, l, p, w) && GrewOnly(s, b, s', b')
    ensures MayInsert(s', b', l, p, w)
  {
  }

  // The entry of l now names the page; no other entry, area, entry of an object or contents differ.
  ghost predicate InsertedView(s: State, v: View, s': State, v': View, l: Loc, p: Page, w: bool) {
    s'.area == s.area && s'.mem == s.mem && s'.cur == s.cur && s'.ent == s.ent && s'.pages == s.pages
    && s'.pte == s.pte[l := Pte(p, w)] && l in s.area && p in s.mem
    && v' == ViewInserted(s, v, l, p)
  }

  lemma InsertedPte(s: State, l: Loc, p: Page, w: bool)
    requires p in s.ref && InsertReady(s, l)
    ensures var s' := Inserted(s, l, p, w);
            s' == s.(free := s'.free, ref := s'.ref, tlb := s'.tlb, pte := s.pte[l := Pte(p, w)])
  {
    assert (s.pte - {l})[l := Pte(p, w)] == s.pte[l := Pte(p, w)];
  }

  ghost predicate NoNewHands(b: Books, b': Books) {
    forall p :: p in b'.kind && b'.kind[p].Hand? ==> p in b.kind && b.kind[p].Hand?
  }

  // Between operations the kernel holds no page outside its tables.
  ghost predicate Quiet(b: Books) { forall p :: p in b.kind ==> !b.kind[p].Hand? }

  lemma InsertHands(s: State, b: Books, l: Loc, p: Page)
    requires PageOk(s, b, p) && (l in s.pte ==> PteOk(s, b, l))
    ensures NoNewHands(b, BooksInserted(s, b, l, p))
    ensures p in BooksInserted(s, b, l, p).kind && !BooksInserted(s, b, l, p).kind[p].Hand?
  {
  }

  // Between operations the free pages are exactly those that no entry, object or owner names.
  lemma FreeIsRest(s: State, b: Books, p: Page)
    requires Inv(s, b) && Quiet(b) && p in s.pages
    ensures p in s.free <==> (forall l :: l in s.pte ==> s.pte[l].page != p) && (forall e :: e in s.ent ==> s.ent[e] != p)
                             && (forall o :: o in s.own ==> s.own[o] != p)
  {
    assert PageOk(s, b, p);
    assert forall l :: l in s.pte ==> PteOk(s, b, l);
    assert forall o :: o in s.own ==> OwnOk(s, b, o);
    assert forall e :: e in s.ent ==> EntOk(s, b, e);
    if b.kind[p].Priv? {
      var l :| l in b.users[p];
      assert l in s.pte && s.pte[l].page == p;
    }
  }

  // The page at l was absent and has been brought in with arbitrary contents: its own, or its object's.
  ghost predicate Brought(v: View, v': View, l: Loc) {
    l in v.area && l !in v.priv && l !in v.att
    && match v.area[l].back
       case Private => l in v'.priv && v' == v.(priv := v.priv[l := v'.priv[l]])
       case Shared(e) => e in v'.shm && v' == v.(att := v.att + {l}, shm := v.shm[e := v'.shm[e]])
                         && (e in v.shm ==> v'.shm[e] == v.shm[e])
  }

  ghost predicate NoNewChunks(own: map<Owner, Page>, own': map<Owner, Page>) {
    forall o :: o in own' && o.Chunk? ==> o in own
  }

  // Chunks come into being only for objects that the areas name.
  ghost predicate ChunksFor(own: map<Owner, Page>, own': map<Owner, Page>, vmas: seq<Area>) {
    forall o :: o in own' && o.Chunk? && o !in own ==> exists i :: 0 <= i < |vmas| && Names(vmas[i], o.obj) == 1
  }

  lemma OneUser(u: set<Loc>, l: Loc)
    requires l in u && |u| <= 1
    ensures u == {l}
  {
    assert |u - {l}| == 0;
  }

  ghost predicate Present(v: View, l: Loc) { l in v.priv || l in v.att }

  // What an address reads in the eager view
  ghost predicate Reads(v: View, l: Loc, d: Data) {
    l in v.area && match v.area[l].back
                   case Private => l in v.priv && v.priv[l] == d
                   case Shared(e) => l in v.att && e in v.shm && v.shm[e] == d
  }

  // No area covers the address, or the area does not allow the access.
  ghost predicate Forbidden(v: View, l: Loc, write: bool) {
    l !in v.area || if write then !v.area[l].write else !v.area[l].read
  }

  // How many free pages bringing in the page at l takes: a page table, the page itself unless its object has it already,
  // and the entry array of the object's chunk
  ghost function Wanted(s: State, l: Loc): nat
    requires l in s.area
  {
    (if Table(l.a, Pdx(l.v)) in s.own then 0 else 1)
    + match s.area[l].back
      case Private => 1
      case Shared(e) => EntryWants(s, e)
  }

  ghost function EntryWants(s: State, e: Ent): nat {
    if e in s.ent then 0 else if Chunk(e.obj, Pdx(e.idx)) in s.own then 1 else 2
  }

  // The chunk of the entry does not exist yet, so kmalloc must have room for it.
  ghost predicate NewChunk(s: State, e: Ent) { e !in s.ent && Chunk(e.obj, Pdx(e.idx)) !in s.own }

  // Memory is short: for the copy of a page that another entry names too, or for a page that is absent.
  ghost predicate Starved(s: State, l: Loc, room: bool) {
    if l in s.pte then !s.pte[l].w && s.free == {} && |PtesNaming(s, s.pte[l].page)| > 1
    else l in s.area && (|s.free| < Wanted(s, l) || (s.area[l].back.Shared? && NewChunk(s, s.area[l].back.ent) && !room))
  }

  // A user load: the byte is the one the eager view holds, an absent page having been brought in first. It fails exactly
  // if the page is absent and either the access is forbidden or memory is short.
  ghost predicate Loads(v: View, v': View, l: Loc, off: nat, r: Option<int>, starved: bool) {
    (r.None? <==> !Present(v, l) && (Forbidden(v, l, false) || starved))
    && match r
       case None => v' == v
       case Some(x) => (if Present(v, l) then v' == v else Brought(v, v', l))
                       && off < PGSIZE && exists d: Data :: Reads(v', l, d) && d[off] == x
  }

  // A user store: it changes one byte of that address, or of that page of the shared memory object. It fails exactly if
  // it is forbidden or memory is short.
  ghost predicate Stores(v: View, v': View, l: Loc, off: nat, x: int, ok: bool, starved: bool) {
    (ok <==> !Forbidden(v, l, true) && !starved)
    && if !ok then v' == v
       else off < PGSIZE && l in v.area
            && exists m: View, d: Data :: (if Present(v, l) then m == v else Brought(v, m, l))
                 && Reads(m, l, d) && v' == Written(m, l, d[off := x]) && Reads(v', l, d[off := x])
  }

  lemma StoresBy(v: View, m: View, v': View, l: Loc, off: nat, x: int, starved: bool)
    requires off < PGSIZE && !Forbidden(v, l, true) && !starved
    requires l in m.area && (if Present(v, l) then m == v else Brought(v, m, l))
    requires exists d: Data :: Reads(m, l, d) && v' == Written(m, l, d[off := x])
    ensures Stores(v, v', l, off, x, true, starved)
  {
  }

  // A new page table changes nothing in what else an absent page wants.
  lemma SameWants(s: State, b: Books, s': State, b': Books, l: Loc)
    requires GrewOnly(s, b, s', b') && NoNewChunks(s.own, s'.own) && l in s.area && l !in s.pte
    requires Table(l.a, Pdx(l.v)) in s'.own && |s'.free| == |s.free| - if Table(l.a, Pdx(l.v)) !in s.own then 1 else 0
    ensures forall room :: Starved(s', l, room) <==> Starved(s, l, room)
  {
  }

  lemma OneLess(s: set<Page>, p: Page)
    requires p in s
    ensures |s - {p}| == |s| - 1
  {
    assert s == (s - {p}) + {p};
  }

  lemma LastFree(s: set<Page>, p: Page)
    requires p in s
    ensures |s| >= 1 && (s - {p} == {} <==> |s| < 2)
  {
    OneLess(s, p);
  }

  // The count of a private page is the number of entries that name it.
  lemma PrivateCount(s: State, b: Books, l: Loc)
    requires Inv(s, b) && l in s.pte && l in s.area && s.area[l].back.Private?
    ensures s.pte[l].page in s.ref && s.ref[s.pte[l].page] == |PtesNaming(s, s.pte[l].page)|
  {
    var p := s.pte[l].page;
    assert PteOk(s, b, l) && PageOk(s, b, p);
    forall k | k in s.pte && s.pte[k].page == p ensures k in b.users[p] {
      assert PteOk(s, b, k);
    }
    assert PtesNaming(s, p) == b.users[p];
  }

  lemma ReadsBack(s: State, b: Books, v: View, l: Loc)
    requires Inv(s, b) && Refines(s, v) && l in s.pte
    ensures PteOk(s, b, l) && s.pte[l].page in s.mem && Present(v, l) && Reads(v, l, s.mem[s.pte[l].page])
  {
    assert PteOk(s, b, l);
    var p := s.pte[l].page;
    assert PageOk(s, b, p) && Shows(s, v, l);
    if s.area[l].back.Shared? {
      assert ShowsEnt(s, v, s.area[l].back.ent);
    }
  }

  ghost predicate InRange(l: Loc, a: Asid, lo: nat, hi: nat) { l.a == a && lo <= l.v < hi }

  ghost predicate ErasedAt(v: View, v': View, a: Asid, lo: nat, hi: nat, l: Loc) {
    (l in v'.priv <==> l in v.priv && !InRange(l, a, lo, hi))
    && (l in v'.priv ==> v'.priv[l] == v.priv[l])
    && (l in v'.att <==> l in v.att && !InRange(l, a, lo, hi))
  }

  // v' is v without the contents of the pages [lo, hi) of a.
  ghost predicate Erased(v: View, v': View, a: Asid, lo: nat, hi: nat) {
    v'.area == v.area && v'.shm == v.shm
    && forall l {:trigger ErasedAt(v, v', a, lo, hi, l)} :: ErasedAt(v, v', a, lo, hi, l)
  }

  ghost predicate UnmappedAt(s: State, s': State, a: Asid, lo: nat, hi: nat, l: Loc) {
    (l in s'.pte <==> l in s.pte && !InRange(l, a, lo, hi)) && (l in s'.pte ==> s'.pte[l] == s.pte[l])
  }

  ghost predicate Unmapped(s: State, s': State, a: Asid, lo: nat, hi: nat) {
    s' == s.(free := s'.free, ref := s'.ref, pte := s'.pte, tlb := s'.tlb)
    && forall l {:trigger UnmappedAt(s, s', a, lo, hi, l)} :: UnmappedAt(s, s', a, lo, hi, l)
  }

  lemma ErasedOne(v0: View, v: View, a: Asid, lo: nat, m: nat)
    requires Erased(v0, v, a, lo, m) && lo <= m
    ensures Erased(v0, v.(priv := v.priv - {Loc(a, m)}, att := v.att - {Loc(a, m)}), a, lo, m + 1)
  {
    var v' := v.(priv := v.priv - {Loc(a, m)}, att := v.att - {Loc(a, m)});
    var m1 := m + 1;
    forall l ensures ErasedAt(v0, v', a, lo, m1, l) {
      assert ErasedAt(v0, v, a, lo, m, l);
    }
  }

  lemma UnmappedOne(s0: State, s: State, s': State, a: Asid, lo: nat, m: nat)
    requires Unmapped(s0, s, a, lo, m) && lo <= m
    requires if Loc(a, m) in s.pte then s.pte[Loc(a, m)].page in s.ref && s' == Removed(s, Loc(a, m)) else s' == s
    ensures Unmapped(s0, s', a, lo, m + 1)
  {
    var m1 := m + 1;
    forall l ensures UnmappedAt(s0, s', a, lo, m1, l) {
      assert UnmappedAt(s0, s, a, lo, m, l);
    }
  }

  // Where a page table is missing nothing is present.
  lemma ErasedSkip(s0: State, s: State, b: Books, v0: View, v: View, a: Asid, lo: nat, m: nat, m': nat)
    requires Inv(s, b) && Refines(s, v) && Erased(v0, v, a, lo, m) && Unmapped(s0, s, a, lo, m) && lo <= m <= m'
    requires Table(a, Pdx(m)) !in s.own && m' <= (Pdx(m) + 1) * 1024
    ensures Erased(v0, v, a, lo, m') && Unmapped(s0, s, a, lo, m')
  {
    forall l ensures ErasedAt(v0, v, a, lo, m', l) && UnmappedAt(s0, s, a, lo, m', l) {
      assert ErasedAt(v0, v, a, lo, m, l) && UnmappedAt(s0, s, a, lo, m, l);
      assert Shows(s, v, l);
      if l in s.pte {
        assert PteOk(s, b, l);
      }
    }
  }

  // ---------- fork ----------

  // Address to reads what from reads, with contents of its own if the page is private.
  ghost predicate CopiedPage(v: View, v': View, to: Loc, from: Loc) {
    if from in v.priv then v' == v.(priv := v.priv[to := v.priv[from]])
    else from in v.att && v' == v.(att := v.att + {to})
  }

  ghost predicate CopiedAt(v: View, v': View, to: Asid, from: Asid, lo: nat, hi: nat, l: Loc) {
    var src := if InRange(l, to, lo, hi) then Loc(from, l.v) else l;
    (l in v'.priv <==> src in v.priv) && (l in v'.priv ==> v'.priv[l] == v.priv[src]) && (l in v'.att <==> src in v.att)
  }

  // The eager copy: the pages [lo, hi) of to are now those of from, and nothing else differs.
  ghost predicate Copied(v: View, v': View, to: Asid, from: Asid, lo: nat, hi: nat) {
    v'.area == v.area && v'.shm == v.shm
    && forall l {:trigger CopiedAt(v, v', to, from, lo, hi, l)} :: CopiedAt(v, v', to, from, lo, hi, l)
  }

  lemma CopiedOne(v0: View, v: View, v': View, to: Asid, from: Asid, lo: nat, m: nat)
    requires Copied(v0, v, to, from, lo, m) && to != from && lo <= m
    requires if Present(v, Loc(from, m)) then CopiedPage(v, v', Loc(to, m), Loc(from, m))
             else v' == v && !Present(v, Loc(to, m))
    requires !Present(v0, Loc(to, m)) && (Loc(from, m) !in v0.priv || Loc(from, m) !in v0.att)
    ensures Copied(v0, v', to, from, lo, m + 1)
  {
    assert CopiedAt(v0, v, to, from, lo, m, Loc(from, m));
    var m1 := m + 1;
    forall l ensures CopiedAt(v0, v', to, from, lo, m1, l) {
      assert CopiedAt(v0, v, to, from, lo, m, l);
    }
  }

  lemma CopiedSkip(s: State, b: Books, v0: View, v: View, to: Asid, from: Asid, lo: nat, m: nat, m': nat)
    requires Inv(s, b) && Refines(s, v) && Copied(v0, v, to, from, lo, m) && to != from && lo <= m <= m'
    requires Table(from, Pdx(m)) !in s.own && m' <= (Pdx(m) + 1) * 1024
    requires forall x :: m <= x < m' ==> !Present(v0, Loc(to, x))
    ensures Copied(v0, v, to, from, lo, m')
  {
    forall l ensures CopiedAt(v0, v, to, from, lo, m', l) {
      assert CopiedAt(v0, v, to, from, lo, m, l);
      var src := Loc(from, l.v);
      assert CopiedAt(v0, v, to, from, lo, m, src);
      assert Shows(s, v, src);
      if src in s.pte {
        assert PteOk(s, b, src);
      }
    }
  }

  // Once one entry of a private page is read-only, all are.
  lemma PrivateReadOnly(s: State, b: Books, p: Page, l: Loc)
    requires Inv(s, b) && PageOk(s, b, p) && PteOk(s, b, l) && s.pte[l].page == p
    requires s.area[l].back.Private? ==> !s.pte[l].w
    ensures s.area[l].back.Private? ==> forall k :: k in b.users[p] ==> k in s.pte && !s.pte[k].w
  {
    if s.area[l].back.Private? {
      forall k | k in b.users[p] ensures k in s.pte && !s.pte[k].w {
        assert PteOk(s, b, k);
      }
    }
  }

  // Where the areas from the i-th on begin
  ghost function Edge(s: seq<Area>, i: nat): nat
    requires i <= |s|
  {
    if i < |s| then FirstPage(s[i]) else if |s| > 0 then EndPage(s[|s| - 1]) else 0
  }

  // Between two areas, below the first and above the last there is nothing.
  lemma GapIsEmpty(vmas: seq<Area>, s: State, b: Books, v: View, a: Asid, x: nat, i: nat)
    requires Denotes(vmas, s.area, a) && Inv(s, b) && Refines(s, v) && i <= |vmas|
    requires (i < |vmas| ==> x < FirstPage(vmas[i])) && (i > 0 ==> EndPage(vmas[i - 1]) <= x)
    ensures Loc(a, x) !in v.area && !Present(v, Loc(a, x))
  {
    PagesInOrder(vmas);
    assert forall j :: 0 <= j < i - 1 ==> EndPage(vmas[j]) <= FirstPage(vmas[i - 1]);
    assert forall j :: i < j < |vmas| ==> EndPage(vmas[i]) <= FirstPage(vmas[j]);
    if Loc(a, x) in s.area {
      var j := PageHasArea(vmas, s.area, a, x);
      assert false;
    }
    PresentInArea(s, b, Loc(a, x));
    assert Shows(s, v, Loc(a, x));
  }

  // From page m up, to is a copy of from; below it has nothing; no other address space differs.
  ghost predicate ForkedAt(v: View, v': View, to: Asid, from: Asid, m: nat, l: Loc) {
    if l.a == to && l.v < m then l !in v'.area && l !in v'.priv && l !in v'.att
    else
      var src := if l.a == to then Loc(from, l.v) else l;
      (l in v'.area <==> src in v.area) && (l in v'.area ==> v'.area[l] == v.area[src])
      && (l in v'.priv <==> src in v.priv) && (l in v'.priv ==> v'.priv[l] == v.priv[src])
      && (l in v'.att <==> src in v.att)
  }

  ghost predicate ForkedFrom(v: View, v': View, to: Asid, from: Asid, m: nat) {
    v'.shm == v.shm && forall l {:trigger ForkedAt(v, v', to, from, m, l)} :: ForkedAt(v, v', to, from, m, l)
  }

  // Fork as arch/arm/pmm.c defines it: the child reads what the parent read, in pages of its own; nobody else notices.
  ghost predicate Forked(v: View, v': View, to: Asid, from: Asid) { ForkedFrom(v, v', to, from, 0) }

  ghost predicate PartlyAt(v: View, v': View, to: Asid, from: Asid, l: Loc) {
    var src := if l.a == to then Loc(from, l.v) else l;
    (l in v'.area ==> src in v.area && v'.area[l] == v.area[src])
    && (l in v'.priv ==> src in v.priv && v'.priv[l] == v.priv[src])
    && (l in v'.att ==> src in v.att)
    && (l.a != to ==> (l in v.area ==> l in v'.area) && (l in v.priv ==> l in v'.priv) && (l in v.att ==> l in v'.att))
  }

  // Page v, which from has and to has not yet, could not be copied: no page is free for the page table of to, or, where
  // private pages are copied at once, for the copy.
  ghost predicate Stuck(s: State, to: Asid, from: Asid, arm: bool, v: nat) {
    s.free == {} && Loc(from, v) in s.pte && Loc(to, v) in s.area && Loc(to, v) !in s.pte
    && (Table(to, Pdx(v)) !in s.own || (arm && s.area[Loc(to, v)].back.Private?))
  }

  // A fork that ran out of memory: what the child has is still the parent's.
  ghost predicate PartlyForked(v: View, v': View, to: Asid, from: Asid) {
    v'.shm == v.shm && forall l {:trigger PartlyAt(v, v', to, from, l)} :: PartlyAt(v, v', to, from, l)
  }

  function AreaCopied(area: map<Loc, Rights>, to: Asid, from: Asid, lo: nat, hi: nat): map<Loc, Rights>
    requires forall v :: lo <= v < hi ==> Loc(from, v) in area
  {
    area + map v | lo <= v < hi :: Loc(to, v) := area[Loc(from, v)]
  }

  lemma ForkBegins(vmas: seq<Area>, s: State, b: Books, v: View, to: Asid, from: Asid)
    requires Denotes(vmas, s.area, from) && Inv(s, b) && Refines(s, v) && (forall l :: l in s.area ==> l.a != to)
    ensures ForkedFrom(v, v, to, from, Edge(vmas, |vmas|))
  {
    forall l ensures ForkedAt(v, v, to, from, Edge(vmas, |vmas|), l) {
      PresentInArea(s, b, l);
      assert Shows(s, v, l);
      if l.a == to && l.v >= Edge(vmas, |vmas|) {
        GapIsEmpty(vmas, s, b, v, from, l.v, |vmas|);
      }
    }
  }

  lemma ForkEnds(vmas: seq<Area>, s: State, b: Books, v: View, v': View, to: Asid, from: Asid)
    requires Denotes(vmas, s.area, from) && Inv(s, b) && Refines(s, v) && ForkedFrom(v, v', to, from, Edge(vmas, 0))
    ensures Forked(v, v', to, from)
  {
    forall l ensures ForkedAt(v, v', to, from, 0, l) {
      assert ForkedAt(v, v', to, from, Edge(vmas, 0), l);
      if l.a == to && l.v < Edge(vmas, 0) && |vmas| > 0 {
        GapIsEmpty(vmas, s, b, v, from, l.v, 0);
      }
    }
  }

  lemma ForkStep(v0: View, v: View, v': View, to: Asid, from: Asid, lo: nat, hi: nat, m: nat)
    requires to != from && lo < hi <= m && ForkedFrom(v0, v, to, from, m)
    requires forall x :: lo <= x < hi ==> Loc(from, x) in v.area
    requires forall x :: hi <= x < m ==> Loc(from, x) !in v0.area && !Present(v0, Loc(from, x))
    requires Copied(v.(area := AreaCopied(v.area, to, from, lo, hi)), v', to, from, lo, hi)
    ensures ForkedFrom(v0, v', to, from, lo)
  {
    var v1 := v.(area := AreaCopied(v.area, to, from, lo, hi));
    forall l ensures ForkedAt(v0, v', to, from, lo, l) {
      assert ForkedAt(v0, v, to, from, m, l) && ForkedAt(v0, v, to, from, m, Loc(from, l.v));
      assert CopiedAt(v1, v', to, from, lo, hi, l);
    }
  }

  lemma ForkPart(v0: View, v: View, v': View, to: Asid, from: Asid, lo: nat, hi: nat, m: nat, upto: nat)
    requires to != from && lo < hi <= m && upto <= hi && ForkedFrom(v0, v, to, from, m)
    requires forall x :: lo <= x < hi ==> Loc(from, x) in v.area
    requires forall x :: hi <= x < m ==> Loc(from, x) !in v0.area
    requires Copied(v.(area := AreaCopied(v.area, to, from, lo, hi)), v', to, from, lo, upto)
    ensures PartlyForked(v0, v', to, from) && AreaFrom(v0.area, v'.area, to, from, lo)
  {
    var v1 := v.(area := AreaCopied(v.area, to, from, lo, hi));
    forall l ensures PartlyAt(v0, v', to, from, l) {
      assert ForkedAt(v0, v, to, from, m, l) && ForkedAt(v0, v, to, from, m, Loc(from, l.v));
      assert CopiedAt(v1, v', to, from, lo, upto, l);
    }
    forall x: nat ensures AreaFromAt(v0.area, v'.area, to, from, lo, x) {
      assert ForkedAt(v0, v, to, from, m, Loc(to, x)) && ForkedAt(v0, v, to, from, m, Loc(from, x));
    }
  }

  ghost predicate AreaFromAt(area: map<Loc, Rights>, area': map<Loc, Rights>, to: Asid, from: Asid, m: nat, x: nat) {
    (Loc(to, x) in area' <==> x >= m && Loc(from, x) in area)
    && (Loc(to, x) in area' ==> area'[Loc(to, x)] == area[Loc(from, x)])
  }

  // The areas of to are those of from at and above page m.
  ghost predicate AreaFrom(area: map<Loc, Rights>, area': map<Loc, Rights>, to: Asid, from: Asid, m: nat) {
    forall x: nat {:trigger AreaFromAt(area, area', to, from, m, x)} :: AreaFromAt(area, area', to, from, m, x)
  }

  lemma ForkedIsPartly(v0: View, v: View, to: Asid, from: Asid, m: nat)
    requires ForkedFrom(v0, v, to, from, m)
    ensures PartlyForked(v0, v, to, from) && AreaFrom(v0.area, v.area, to, from, m)
  {
    forall l ensures PartlyAt(v0, v, to, from, l) {
      assert ForkedAt(v0, v, to, from, m, l);
    }
    forall x: nat ensures AreaFromAt(v0.area, v.area, to, from, m, x) {
      assert ForkedAt(v0, v, to, from, m, Loc(to, x));
    }
  }

  lemma ProperSuffix(s: seq<Area>, k: nat)
    requires Proper(s) && k <= |s|
    ensures Proper(s[k..])
  {
    forall i | 0 <= i < |s[k..]| ensures WellFormed(s[k..][i]) && HasObject(s[k..][i]) {
      assert WellFormed(s[k + i]) && HasObject(s[k + i]);
    }
  }

  // A suffix of the list denotes the pages from its first area on.
  lemma SuffixDenotes(s: seq<Area>, area: map<Loc, Rights>, area': map<Loc, Rights>, to: Asid, from: Asid, k: nat)
    requires Denotes(s, area, from) && k <= |s| && AreaFrom(area, area', to, from, Edge(s, k))
    ensures Denotes(s[k..], area', to)
  {
    var t := s[k..];
    ProperSuffix(s, k);
    PagesInOrder(s);
    forall v: nat ensures DenotesAt(t, area', to, v) {
      assert AreaFromAt(area, area', to, from, Edge(s, k), v);
      if Loc(to, v) in area' {
        var i := PageHasArea(s, area, from, v);
        assert i >= k;
        assert WellFormed(t[i - k]);
        PageCovered(t[i - k], v);
        assert Covers(t[i - k], v * PGSIZE);
      }
      forall i | 0 <= i < |t| && Covers(t[i], v * PGSIZE) ensures Describes(t[i], area', to, v) {
        assert t[i] == s[k + i] && WellFormed(s[k + i]);
        PageCovered(s[k + i], v);
        PagesOf(s, area, from, k + i, v);
        assert 0 < i ==> EndPage(s[k]) <= FirstPage(s[k + i]);
      }
    }
  }

  // All pages of the area are in from and none is in to.
  ghost predicate Copyable(x: Area, area: map<Loc, Rights>, to: Asid, from: Asid) {
    forall v :: FirstPage(x) <= v < EndPage(x) ==> Loc(from, v) in area && Describes(x, area, from, v) && Loc(to, v) !in area
  }

  lemma AreaIsReady(s: seq<Area>, area: map<Loc, Rights>, v0: View, v: View, to: Asid, from: Asid, i: nat, m: nat)
    requires Denotes(s, area, from) && i < |s| && v0.area == area && to != from
    requires ForkedFrom(v0, v, to, from, m) && m == Edge(s, i + 1)
    ensures FirstPage(s[i]) < EndPage(s[i]) <= m && Copyable(s[i], v.area, to, from)
  {
    PagesInOrder(s);
    forall x | FirstPage(s[i]) <= x < EndPage(s[i])
      ensures Loc(from, x) in v.area && Describes(s[i], v.area, from, x) && Loc(to, x) !in v.area
    {
      PagesOf(s, area, from, i, x);
      assert ForkedAt(v0, v, to, from, m, Loc(from, x)) && ForkedAt(v0, v, to, from, m, Loc(to, x));
    }
  }

  // The page tables [i, j) of a are freed; every other owned page stays.
  ghost predicate TablesGone(own: map<Owner, Page>, own': map<Owner, Page>, a: Asid, i: nat, j: nat) {
    (forall o :: o in own' <==> o in own && !(o.Table? && o.a == a && i <= o.pdx < j))
    && forall o :: o in own' ==> own'[o] == own[o]
  }

  ghost predicate DroppedAt<T(!new)>(m: map<Ent, T>, m': map<Ent, T>, obj: nat, lo: nat, hi: nat, e: Ent) {
    (e in m' <==> e in m && !(e.obj == obj && lo <= e.idx < hi)) && (e in m' ==> m'[e] == m[e])
  }

  // The entries [lo, hi) of an object are gone.
  ghost predicate DroppedTo<T(!new)>(m: map<Ent, T>, m': map<Ent, T>, obj: nat, lo: nat, hi: nat) {
    forall e {:trigger DroppedAt(m, m', obj, lo, hi, e)} :: DroppedAt(m, m', obj, lo, hi, e)
  }

  lemma NoneDropped<T(!new)>(m: map<Ent, T>, obj: nat, lo: nat)
    ensures DroppedTo(m, m, obj, lo, lo)
  {
  }

  lemma DropNext<T(!new)>(m: map<Ent, T>, m': map<Ent, T>, obj: nat, lo: nat, hi: nat)
    requires DroppedTo(m, m', obj, lo, hi) && lo <= hi
    ensures DroppedTo(m, m' - {Ent(obj, hi)}, obj, lo, hi + 1)
  {
    var m'', next := m' - {Ent(obj, hi)}, hi + 1;
    forall e ensures DroppedAt(m, m'', obj, lo, next, e) {
      assert DroppedAt(m, m', obj, lo, hi, e);
    }
  }

  // Chunk no of an object holds no entries.
  ghost predicate ChunkGone<T(!new)>(m: map<Ent, T>, m': map<Ent, T>, obj: nat, no: nat) {
    (forall e :: e in m' <==> e in m && !(e.obj == obj && Pdx(e.idx) == no)) && (forall e :: e in m' ==> m'[e] == m[e])
  }

  ghost predicate ObjectGone<T(!new)>(m: map<Ent, T>, m': map<Ent, T>, obj: nat) {
    (forall e :: e in m' <==> e in m && e.obj != obj) && (forall e :: e in m' ==> m'[e] == m[e])
  }

  // Some of the object's chunks hold no entries any more.
  ghost predicate ObjectGoing<T(!new)>(m: map<Ent, T>, m': map<Ent, T>, obj: nat) {
    (forall e :: e in m && e.obj != obj ==> e in m') && (forall e :: e in m' ==> e in m && m'[e] == m[e])
  }

  // The chunks of an object are gone but for those in todo.
  ghost predicate ChunksLeft(own: map<Owner, Page>, own': map<Owner, Page>, obj: nat, todo: set<Owner>) {
    (forall o :: o in own' <==> o in own && (o.Chunk? && o.obj == obj ==> o in todo))
    && (forall o :: o in own' ==> own'[o] == own[o])
  }

  lemma ChunkDropped<T(!new)>(m: map<Ent, T>, m': map<Ent, T>, obj: nat, no: nat)
    requires DroppedTo(m, m', obj, no * 1024, no * 1024 + 1024)
    ensures ChunkGone(m, m', obj, no)
  {
    forall e ensures (e in m' <==> e in m && !(e.obj == obj && Pdx(e.idx) == no)) && (e in m' ==> m'[e] == m[e]) {
      assert DroppedAt(m, m', obj, no * 1024, no * 1024 + 1024, e);
    }
  }

  // page_ref_inc and page_ref_dec
  function Raised(s: State, p: Page, n: int): State
    requires p in s.ref
  {
    s.(ref := s.ref[p := s.ref[p] + n])
  }

  lemma SwapUpdates(m: map<Page, int>, p: Page, x: int, q: Page, y: int)
    requires p != q
    ensures m[p := x][q := y] == m[q := y][p := x]
  {
  }

  lemma RaisedAndLowered(s: State, p: Page)
    requires p in s.ref
    ensures Raised(Raised(s, p, 1), p, -1) == s
  {
    assert s.ref[p := s.ref[p] + 1][p := s.ref[p]] == s.ref;
  }

  // page_insert counts the new use before it removes the old one.
  lemma RaisedFirst(s: State, l: Loc, p: Page)
    requires p in s.ref && l in s.pte && s.pte[l].page in s.ref && s.pte[l].page != p
    ensures Removed(Raised(s, p, 1), l) == Raised(Removed(s, l), p, 1)
  {
    var q := s.pte[l].page;
    SwapUpdates(s.ref, p, s.ref[p] + 1, q, s.ref[q] - 1);
    var s1, s2 := Removed(Raised(s, p, 1), l), Raised(Removed(s, l), p, 1);
    assert s1 == s2.(ref := s1.ref);
  }

  class Kernel {
    var st: State
    // shmem_ref of the shared memory objects
    var refs: map<nat, nat>
    // shmem->len of those that exist
    var lens: map<nat, nat>
    ghost var books: Books
    ghost var eager: View

    ghost predicate Ok()
      reads this
    {
      Inv(st, books) && Refines(st, eager)
    }

    // All pages free, nothing mapped
    constructor (mem: map<Page, Data>)
      ensures Ok() && Quiet(books) && st.pages == mem.Keys == st.free && st.area == map[] && st.own == map[]
      ensures eager == View(map[], map[], map[], {}) && refs == map[] && lens == map[] && st.cur == 0
    {
      refs, lens := map[], map[];
      st := State(mem.Keys, mem.Keys, map p | p in mem :: 0, mem, map[], map[], map[], map[], 0, map[]);
      books := Books(map p | p in mem :: Free, map p | p in mem :: {});
      eager := View(map[], map[], map[], {});
      new;
      assert forall p :: p in st.pages ==> PageOk(st, books, p);
    }

    // alloc_page: any free page, or NULL when there is none
    method AllocPage() returns (p: Option<Page>)
      requires Ok()
      modifies this`st, this`books
      ensures Ok()
      ensures p.None? ==> old(st.free) == {} && st == old(st) && books == old(books)
      ensures p.Some? ==> p.value in old(st.free) && p.value in st.pages
                          && st == old(st).(free := old(st).free - {p.value})
                          && books == old(books).(kind := old(books).kind[p.value := Hand])
    {
      if st.free == {} {
        return None;
      }
      var q :| q in st.free;
      AllocKeeps(st, books, q);
      SameView(st, st.(free := st.free - {q}), eager);
      st := st.(free := st.free - {q});
      books := books.(kind := books.kind[q := Hand]);
      return Some(q);
    }

    method FreePage(p: Page)
      requires Ok() && p in st.pages && p in books.kind && books.kind[p].Hand?
      modifies this`st, this`books, this`eager
      ensures Ok() && eager == old(eager)
      ensures st == Freed(old(st), p) && books == old(books).(kind := old(books).kind[p := Free])
    {
      FreeKeeps(st, books, p);
      SameView(st, Freed(st, p), eager);
      st := Freed(st, p);
      books := books.(kind := books.kind[p := Free]);
    }

    // get_pte: make sure that a page table covers the address
    method GetPte(l: Loc, create: bool) returns (ok: bool)
      requires Ok()
      modifies this`st, this`books
      ensures Ok() && GrewOnly(old(st), old(books), st, books) && NoNewHands(old(books), books)
      ensures NoNewChunks(old(st).own, st.own) && ok == (Table(l.a, Pdx(l.v)) in st.own) && st.free <= old(st).free
      ensures |st.free| == |old(st.free)| - if ok && Table(l.a, Pdx(l.v)) !in old(st).own then 1 else 0
      ensures !create || !ok ==> st == old(st) && books == old(books)
      ensures create && !ok ==> old(st.free) == {}
      ensures Table(l.a, Pdx(l.v)) in old(st).own ==> st == old(st) && books == old(books)
    {
      var o := Table(l.a, Pdx(l.v));
      if o !in st.own {
        if !create {
          return false;
        }
        ok := OwnPage(o, 1);
        if ok {
          OneLess(old(st).free, st.own[o]);
        }
        return;
      }
      return true;
    }

    // page_remove_pte on a present entry, as it writes
    method DropPte(l: Loc)
      requires l in st.pte && st.pte[l].page in st.ref
      modifies this`st
      ensures st == Removed(old(st), l)
    {
      var page := st.pte[l].page;
      var ref := st.ref[page] - 1;
      st := st.(ref := st.ref[page := ref]);
      if ref == 0 {
        st := Freed(st, page);
      }
      st := st.(pte := st.pte - {l}, tlb := Untlb(st, l));
    }

    // page_remove_pte
    method PageRemovePte(l: Loc)
      requires Ok()
      modifies this`st, this`books, this`eager
      ensures Ok()
      ensures l !in old(st).pte ==> st == old(st) && books == old(books)
      ensures l in old(st).pte ==> PteOk(old(st), old(books), l) && old(st).pte[l].page in old(st).ref
                                   && st == Removed(old(st), l)
                                   && books == BooksRemoved(old(books), l, old(st).pte[l].page)
      ensures eager == old(eager).(priv := old(eager).priv - {l}, att := old(eager).att - {l})
    {
      if l in st.pte {
        RemoveKeeps(st, books, l);
        RemoveView(st, eager, l);
        eager := eager.(priv := eager.priv - {l}, att := eager.att - {l});
        books := BooksRemoved(books, l, st.pte[l].page);
        DropPte(l);
      } else {
        assert Shows(st, eager, l);
        assert eager.priv - {l} == eager.priv && eager.att - {l} == eager.att;
      }
    }

    // page_insert, as it writes once the page table is there
    method WritePte(l: Loc, page: Page, w: bool)
      requires page in st.ref && (l in st.pte ==> st.pte[l].page in st.ref)
      modifies this`st
      ensures st == Inserted(old(st), l, page, w)
    {
      ghost var s := st;
      st := Raised(st, page, 1);
      if l in st.pte {
        if st.pte[l].page == page {
          RaisedAndLowered(s, page);
          st := Raised(st, page, -1);
        } else {
          RaisedFirst(s, l, page);
          DropPte(l);
        }
      }
      st := st.(pte := st.pte[l := Pte(page, w)], tlb := Untlb(st, l));
    }

    // page_insert
    method PageInsert(l: Loc, page: Page, w: bool) returns (ok: bool)
      requires Ok() && MayInsert(st, books, l, page, w)
      modifies this`st, this`books, this`eager
      ensures Ok() && NoNewChunks(old(st).own, st.own)
      ensures ok <==> Table(l.a, Pdx(l.v)) in old(st).own || old(st.free) != {}
      ensures !ok ==> st == old(st) && books == old(books) && eager == old(eager)
      ensures ok ==> InsertedView(old(st), old(eager), st, eager, l, page, w)
      ensures NoNewHands(old(books), books) && (ok ==> page in books.kind && !books.kind[page].Hand?)
      ensures Table(l.a, Pdx(l.v)) in old(st).own ==>
                ok && page in old(st).ref && InsertReady(old(st), l) && st == Inserted(old(st), l, page, w)
                && books == BooksInserted(old(st), old(books), l, page)
    {
      assert PageOk(st, books, page);
      ok := GetPte(l, true);
      if !ok {
        return;
      }
      GrowthKeeps(old(st), old(books), st, books, l, page, w);
      InsertKeeps(st, books, eager, l, page, w);
      InsertedPte(st, l, page, w);
      assert PageOk(st, books, page);
      InsertHands(st, books, l, page);
      books := BooksInserted(st, books, l, page);
      eager := ViewInserted(st, eager, l, page);
      WritePte(l, page, w);
    }

    // pgdir_alloc_page
    method PgdirAllocPage(l: Loc, w: bool) returns (page: Option<Page>)
      requires Ok() && Quiet(books) && l in st.area && l !in st.pte && st.area[l].back.Private? && (w ==> st.area[l].write)
      modifies this`st, this`books, this`eager
      ensures Ok() && Quiet(books)
      ensures page.None? ==> eager == old(eager) && st.pte == old(st).pte && st.area == old(st).area && st.cur == old(st).cur
      ensures page.None? <==> |old(st.free)| < if Table(l.a, Pdx(l.v)) in old(st).own then 1 else 2
      ensures NoNewChunks(old(st).own, st.own) && (page.None? ==> st.mem == old(st).mem)
      ensures page.Some? ==> InsertedView(old(st), old(eager), st, eager, l, page.value, w)
    {
      page := AllocPage();
      if page.Some? {
        LastFree(old(st).free, page.value);
        var ok := PageInsert(l, page.value, w);
        if !ok {
          FreePage(page.value);
          page := None;
        }
      }
    }

    // shmem_get_entry(.., create = 1): ok when the entry has a page; kmalloc serves shmn_create when there is room
    method ShmemGetEntry(obj: nat, addr: nat, room: bool) returns (ok: bool, e: Ent)
      requires Ok() && Quiet(books)
      // the assertion at its head
      requires obj in lens && addr < lens[obj]
      modifies this`st, this`books, this`eager
      ensures Ok() && Quiet(books) && e == Ent(obj, addr / PGSIZE) && ok == (e in st.ent)
      ensures st == old(st).(free := st.free, ref := st.ref, own := st.own, ent := st.ent)
      ensures forall o :: o in old(st).own ==> o in st.own
      ensures st.ent == if ok then old(st).ent[e := st.ent[e]] else old(st).ent
      ensures e in old(st).ent ==> st == old(st) && eager == old(eager)
      ensures ok <==> |old(st.free)| >= EntryWants(old(st), e) && (NewChunk(old(st), e) ==> room)
      ensures forall o :: o in st.own ==> o in old(st).own || o == Chunk(e.obj, Pdx(e.idx))
      ensures eager == if ok && e in eager.shm then old(eager).(shm := old(eager).shm[e := eager.shm[e]]) else old(eager)
    {
      e := Ent(obj, addr / PGSIZE);
      assert ShowsEnt(st, eager, e);
      var o := Chunk(obj, Pdx(e.idx));
      if e in st.ent {
        assert EntOk(st, books, e);
        assert old(st).ent == old(st).ent[e := st.ent[e]];
        assert eager.shm == eager.shm[e := eager.shm[e]];
        return true, e;
      }
      if o !in st.own {
        // shmn_create
        if !room {
          return false, e;
        }
        var some := OwnPage(o, 0);
        if !some {
          return false, e;
        }
        OneLess(old(st).free, st.own[o]);
      }
      ok := EnterPage(e);
    }

    // A free page becomes a page table or the entry array of a chunk.
    method OwnPage(o: Owner, count: int) returns (ok: bool)
      requires Ok() && o !in st.own
      modifies this`st, this`books
      ensures Ok() && GrewOnly(old(st), old(books), st, books) && NoNewHands(old(books), books)
      ensures !ok ==> old(st.free) == {} && st == old(st) && books == old(books)
      ensures ok ==> o in st.own && st.own == old(st).own[o := st.own[o]] && st.own[o] in old(st.free)
                     && st == old(st).(free := old(st).free - {st.own[o]}, ref := st.ref, own := st.own)
    {
      var page := AllocPage();
      if page.None? {
        return false;
      }
      assert PageOk(old(st), old(books), page.value);
      OwnKeeps(st, books, page.value, o, count);
      SameView(st, Owned(st, o, page.value, count), eager);
      st := Owned(st, o, page.value, count);
      books := books.(kind := books.kind[page.value := Own(o)]);
      ok := true;
    }

    // An entry gets its page.
    method EnterPage(e: Ent) returns (ok: bool)
      requires Ok() && Quiet(books) && e !in st.ent && Chunk(e.obj, Pdx(e.idx)) in st.own
      modifies this`st, this`books, this`eager
      ensures Ok() && Quiet(books) && ok == (e in st.ent)
      ensures st == old(st).(free := st.free, ref := st.ref, ent := st.ent)
      ensures ok <==> old(st.free) != {}
      ensures if ok then st.ent == old(st).ent[e := st.ent[e]] else st == old(st)
      ensures eager == if ok && e in eager.shm then old(eager).(shm := old(eager).shm[e := eager.shm[e]]) else old(eager)
    {
      var page := AllocPage();
      if page.None? {
        return false;
      }
      EntryKeeps(st, books, page.value, e);
      EntryView(st, eager, page.value, e);
      eager := eager.(shm := eager.shm[e := st.mem[page.value]]);
      books := books.(kind := books.kind[page.value := Shm(e)]);
      st := Entered(st, e, page.value);
      ok := true;
    }

    // memcpy(page2kva(to), page2kva(from), PGSIZE), into a page that nothing maps
    method CopyContents(to: Page, from: Page)
      requires Ok() && to in st.pages && to in books.kind && books.kind[to].Hand? && from in st.mem
      modifies this`st
      ensures Ok() && st == old(st).(mem := old(st).mem[to := old(st).mem[from]])
    {
      MemKeeps(st, st.(mem := st.mem[to := st.mem[from]]), books);
      HandView(st, books, eager, to, st.mem[from]);
      st := st.(mem := st.mem[to := st.mem[from]]);
    }

    // do_pgfault on an absent page of the shared memory area x
    method FaultShared(l: Loc, x: Area, room: bool) returns (ok: bool)
      requires Ok() && Quiet(books) && l !in st.pte && x.flags.share && Describes(x, st.area, l.a, l.v)
      requires WellFormed(x) && Covers(x, l.v * PGSIZE) && InObject(x, lens)
      requires Table(l.a, Pdx(l.v)) in st.own
      modifies this`st, this`books, this`eager
      ensures Ok() && Quiet(books) && st.area == old(st).area && st.cur == old(st).cur && st.mem == old(st).mem
      ensures !ok ==> eager == old(eager) && st.pte == old(st).pte
      ensures ok ==> l in st.pte && st.pte[l].w == st.area[l].write && Brought(old(eager), eager, l)
      ensures var e := EntryOf(x, l.v);
              ok <==> |old(st.free)| >= EntryWants(old(st), e) && (NewChunk(old(st), e) ==> room)
      ensures ok ==> EntryOf(x, l.v) in st.ent && st.pte[l].page == st.ent[EntryOf(x, l.v)]
      ensures forall o :: o in st.own && o.Chunk? && o !in old(st).own ==> o.obj == x.shmem.value
    {
      var off := l.v * PGSIZE - x.start + x.off;
      EntryInObject(x, l.v, lens);
      assert l == Loc(l.a, l.v);
      assert Shows(st, eager, l);
      var e;
      ok, e := ShmemGetEntry(x.shmem.value, off, room);
      if ok {
        assert EntOk(st, books, e);
        assert ShowsEnt(st, eager, e) && ShowsEnt(old(st), old(eager), e);
        assert old(eager).shm[e := eager.shm[e]] == eager.shm;
        ok := PageInsert(l, st.ent[e], x.flags.write);
      }
    }

    // do_pgfault on a present, read-only page of a private writable area: copy-on-write
    method FaultCow(l: Loc) returns (ok: bool)
      requires Ok() && Quiet(books) && l in st.pte && !st.pte[l].w
      requires l in st.area && st.area[l].write && st.area[l].back.Private?
      modifies this`st, this`books, this`eager
      ensures Ok() && Quiet(books) && st.area == old(st).area && st.cur == old(st).cur && eager == old(eager)
      ensures NoNewChunks(old(st).own, st.own)
      ensures ok <==> !(old(st.free) == {} && |PtesNaming(old(st), old(st).pte[l].page)| > 1)
      ensures !ok ==> st.pte == old(st).pte
      ensures ok ==> l in st.pte && st.pte[l].w && st.own == old(st).own
      ensures ok ==> if |PtesNaming(old(st), old(st).pte[l].page)| > 1 then st.pte[l].page in old(st).free
                     else st.pte[l].page == old(st).pte[l].page && st.free == old(st).free
    {
      var page := st.pte[l].page;
      assert PteOk(st, books, l) && PageOk(st, books, page) && Shows(st, eager, l);
      PrivateCount(st, books, l);
      var newpage := AllocPage();
      assert PteOk(st, books, l) && PageOk(st, books, page);
      if st.ref[page] > 1 {
        if newpage.None? {
          return false;
        }
        CopyContents(newpage.value, page);
        page, newpage := newpage.value, None;
      } else {
        OneUser(books.users[page], l);
      }
      assert eager.priv[l := st.mem[page]] == eager.priv;
      assert MayInsert(st, books, l, page, true);
      ok := PageInsert(l, page, true);
      if newpage.Some? {
        FreePage(newpage.value);
      }
    }

    // do_pgfault: bit 0 of the error code says whether the page is present, bit 1 whether the access is a write; a
    // write that finds a writable entry does not fault. vmas are the areas of the address space.
    method DoPgfault(vmas: seq<Area>, l: Loc, off: nat, write: bool, room: bool) returns (ok: bool)
      requires Ok() && Quiet(books) && off < PGSIZE && Denotes(vmas, st.area, l.a) && Bounded(vmas, lens)
      requires l in st.pte && write ==> !st.pte[l].w
      modifies this`st, this`books, this`eager
      ensures Ok() && Quiet(books) && st.area == old(st).area && st.cur == old(st).cur
      ensures !ok ==> eager == old(eager) && st.pte == old(st).pte
      ensures ok ==> !Forbidden(eager, l, write) && l in st.pte && st.pte[l].w == st.area[l].write
      ensures ok ==> if l in old(st).pte then write && eager == old(eager) else Brought(old(eager), eager, l)
      ensures write || l !in old(st).pte ==> (ok <==> !Forbidden(old(eager), l, write) && !Starved(old(st), l, room))
      ensures ChunksFor(old(st).own, st.own, vmas)
    {
      var k := FindFirst(vmas, l.v * PGSIZE + off);
      FoundPage(vmas, st.area, l.a, l.v, off, k);
      assert l == Loc(l.a, l.v);
      if k == |vmas| || vmas[k].start > l.v * PGSIZE + off {
        return false;
      }
      var x := vmas[k];
      assert WellFormed(vmas[k]) && InObject(vmas[k], lens);
      if write {
        if !x.flags.write {
          return false;
        }
      } else if l in st.pte || !(x.flags.read || x.flags.exec) {
        return false;
      }
      ok := ServeFault(l, x, write, room);
    }

    // The rest of do_pgfault, once the area x is known to allow the access
    method ServeFault(l: Loc, x: Area, write: bool, room: bool) returns (ok: bool)
      requires Ok() && Quiet(books) && Describes(x, st.area, l.a, l.v)
      requires WellFormed(x) && Covers(x, l.v * PGSIZE) && InObject(x, lens)
      requires if write then x.flags.write else x.flags.read || x.flags.exec
      requires l in st.pte ==> write && !st.pte[l].w
      modifies this`st, this`books, this`eager
      ensures Ok() && Quiet(books) && st.area == old(st).area && st.cur == old(st).cur
      ensures ok <==> !Starved(old(st), l, room)
      ensures !ok ==> eager == old(eager) && st.pte == old(st).pte
      ensures ok ==> l in st.pte && st.pte[l].w == st.area[l].write
      ensures ok ==> if l in old(st).pte then eager == old(eager) else Brought(old(eager), eager, l)
      ensures forall o :: o in st.own && o.Chunk? && o !in old(st).own ==> Names(x, o.obj) == 1
    {
      assert l == Loc(l.a, l.v);
      assert l in st.pte ==> PteOk(st, books, l);
      ok := GetPte(l, true);
      if !ok {
        return;
      }
      if l !in st.pte {
        SameWants(old(st), old(books), st, books, l);
        ok := BringIn(l, x, room);
      } else {
        // the kernel's assertion: a write to a present page that is not writable, in a copy-on-write area
        assert PteOk(st, books, l);
        assert write && !st.pte[l].w && x.flags.write && !x.flags.share;
        ok := FaultCow(l);
      }
    }

    // do_pgfault on an absent page, whose page table is there
    method BringIn(l: Loc, x: Area, room: bool) returns (ok: bool)
      requires Ok() && Quiet(books) && Describes(x, st.area, l.a, l.v) && l !in st.pte && Table(l.a, Pdx(l.v)) in st.own
      requires WellFormed(x) && Covers(x, l.v * PGSIZE) && InObject(x, lens)
      modifies this`st, this`books, this`eager
      ensures Ok() && Quiet(books) && st.area == old(st).area && st.cur == old(st).cur
      ensures l in old(st).area && (ok <==> !Starved(old(st), l, room))
      ensures !ok ==> eager == old(eager) && st.pte == old(st).pte
      ensures ok ==> l in st.pte && st.pte[l].w == st.area[l].write && Brought(old(eager), eager, l)
      ensures forall o :: o in st.own && o.Chunk? && o !in old(st).own ==> Names(x, o.obj) == 1
    {
      assert l == Loc(l.a, l.v);
      assert Shows(st, eager, l);
      if !x.flags.share {
        var page := PgdirAllocPage(l, x.flags.write);
        ok := page.Some?;
      } else {
        ok := FaultShared(l, x, room);
      }
    }

    // The MMU: a cached translation if there is one, else a walk of the page table, whose entry may be cached
    method Translate(v: nat) returns (e: Option<Pte>)
      requires Ok()
      modifies this`st
      ensures Ok() && st == old(st).(tlb := st.tlb)
      ensures e == if Loc(st.cur, v) in st.pte then Some(st.pte[Loc(st.cur, v)]) else None
    {
      var l := Loc(st.cur, v);
      if v in st.tlb {
        return Some(st.tlb[v]);
      }
      if l !in st.pte {
        return None;
      }
      var cache: bool := *;
      if cache {
        MemKeeps(st, st.(tlb := st.tlb[v := st.pte[l]]), books);
        SameView(st, st.(tlb := st.tlb[v := st.pte[l]]), eager);
        st := st.(tlb := st.tlb[v := st.pte[l]]);
      }
      return Some(st.pte[l]);
    }

    // A load by the running program, retried after the page fault it may cause
    method Load(vmas: seq<Area>, v: nat, off: nat, room: bool) returns (r: Option<int>)
      requires Ok() && Quiet(books) && off < PGSIZE && Denotes(vmas, st.area, st.cur) && Bounded(vmas, lens)
      modifies this`st, this`books, this`eager
      ensures Ok() && Quiet(books) && st.cur == old(st).cur && st.area == old(st).area
      ensures Loads(old(eager), eager, Loc(st.cur, v), off, r, Starved(old(st), Loc(st.cur, v), room))
      ensures ChunksFor(old(st).own, st.own, vmas)
    {
      var l := Loc(st.cur, v);
      assert Shows(st, eager, l);
      var e := Translate(v);
      if e.None? {
        var ok := DoPgfault(vmas, l, off, false, room);
        if !ok {
          return None;
        }
        e := Translate(v);
      }
      assert PteOk(st, books, l) && PageOk(st, books, e.value.page);
      ReadsBack(st, books, eager, l);
      return Some(st.mem[e.value.page][off]);
    }

    // A store by the running program
    method Store(vmas: seq<Area>, v: nat, off: nat, x: int, room: bool) returns (ok: bool)
      requires Ok() && Quiet(books) && off < PGSIZE && Denotes(vmas, st.area, st.cur) && Bounded(vmas, lens)
      modifies this`st, this`books, this`eager
      ensures Ok() && Quiet(books) && st.cur == old(st).cur && st.area == old(st).area
      ensures Stores(old(eager), eager, Loc(st.cur, v), off, x, ok, Starved(old(st), Loc(st.cur, v), room))
      ensures ChunksFor(old(st).own, st.own, vmas)
    {
      var l := Loc(st.cur, v);
      assert Shows(st, eager, l);
      var e := Translate(v);
      if e.None? || !e.value.w {
        ok := DoPgfault(vmas, l, off, true, room);
        if !ok {
          return;
        }
        e := Translate(v);
      }
      ghost var m := eager;
      assert PteOk(st, books, l);
      WriteByte(l, e.value.page, off, x);
      StoresBy(old(eager), m, eager, l, off, x, Starved(old(st), l, room));
      ok := true;
    }

    // The store itself, through a writable translation
    method WriteByte(l: Loc, p: Page, off: nat, x: int)
      requires Ok() && off < PGSIZE && l in st.pte && st.pte[l] == Pte(p, true)
      modifies this`st, this`eager
      ensures Ok() && st == old(st).(mem := st.mem)
      ensures l in old(eager).area && exists d: Data :: Reads(old(eager), l, d) && eager == Written(old(eager), l, d[off := x])
    {
      ReadsBack(st, books, eager, l);
      ghost var m, d := eager, st.mem[p];
      WriteView(st, books, eager, l, st.mem[p][off := x]);
      MemKeeps(st, st.(mem := st.mem[p := st.mem[p][off := x]]), books);
      eager := Written(eager, l, st.mem[p][off := x]);
      st := st.(mem := st.mem[p := st.mem[p][off := x]]);
      assert Reads(m, l, d) && eager == Written(m, l, d[off := x]);
    }

    // unmap_range, over page numbers: a missing page table skips to the next one
    method UnmapRange(a: Asid, lo: nat, hi: nat) returns (ghost done: seq<Step>)
      requires Ok() && Quiet(books) && lo < hi
      modifies this`st, this`books, this`eager
      ensures Ok() && Quiet(books)
      ensures Unmapped(old(st), st, a, lo, hi) && Erased(old(eager), eager, a, lo, hi) && Path(old(st), st, done)
    {
      var v := lo;
      done := [];
      assert forall l :: UnmappedAt(st, st, a, lo, lo, l) && ErasedAt(eager, eager, a, lo, lo, l);
      while v < hi
        invariant Ok() && Quiet(books) && lo <= v
        invariant Unmapped(old(st), st, a, lo, if v < hi then v else hi)
        invariant Erased(old(eager), eager, a, lo, if v < hi then v else hi)
        invariant Path(old(st), st, done)
      {
        if Table(a, Pdx(v)) !in st.own {
          var next := (Pdx(v) + 1) * 1024;
          ErasedSkip(old(st), st, books, old(eager), eager, a, lo, v, if next < hi then next else hi);
          v := next;
        } else {
          ghost var s := st;
          ErasedOne(old(eager), eager, a, lo, v);
          PageRemovePte(Loc(a, v));
          UnmappedOne(old(st), s, st, a, lo, v);
          if Loc(a, v) in s.pte {
            PathMore(old(st), s, done, Unmap(Loc(a, v)));
            done := done + [Unmap(Loc(a, v))];
          }
          v := v + 1;
        }
      }
    }

    // The parent's own entry becomes read-only.
    method Protect(from: Loc)
      requires Ok() && Quiet(books) && from in st.pte && from in st.area && st.area[from].back.Private?
      modifies this`st, this`books, this`eager
      ensures Ok() && Quiet(books) && eager == old(eager) && st.area == old(st).area && st.cur == old(st).cur
      ensures st.mem == old(st).mem && st.own == old(st).own && st.pages == old(st).pages
      ensures st.pte == old(st).pte[from := Pte(old(st).pte[from].page, false)]
    {
      var page := st.pte[from].page;
      assert PteOk(st, books, from) && PageOk(st, books, page) && Shows(st, eager, from);
      assert eager.priv[from := st.mem[page]] == eager.priv;
      var _ := PageInsert(from, page, false);
    }

    // One page of copy_range on x86: both spaces share the page, read-only if it is private
    method CopyPage(to: Loc, from: Loc, share: bool) returns (ok: bool)
      requires Ok() && Quiet(books) && from in st.pte && to !in st.pte && from != to
      requires from in st.area && to in st.area && st.area[to] == st.area[from] && share == st.area[from].back.Shared?
      modifies this`st, this`books, this`eager
      ensures Ok() && Quiet(books) && st.area == old(st).area && st.cur == old(st).cur && st.mem == old(st).mem
      ensures forall o :: o in old(st).own ==> o in st.own
      ensures NoNewChunks(old(st).own, st.own)
      ensures ok <==> Table(to.a, Pdx(to.v)) in old(st).own || old(st.free) != {}
      ensures if ok then CopiedPage(old(eager), eager, to, from) else st == old(st) && eager == old(eager)
      ensures ok ==> from in st.pte && st.pte == old(st).pte[from := st.pte[from]][to := st.pte[from]]
      ensures ok ==> st.pte[from].page == old(st).pte[from].page
      ensures ok ==> st.pte[from].w == (old(st).pte[from].w && share)
    {
      ok := GetPte(to, true);
      if !ok {
        return;
      }
      if !share && st.pte[from].w {
        Protect(from);
      }
      ok := LinkCopy(to, from);
    }

    // to gets the page of from, with the same permission.
    method LinkCopy(to: Loc, from: Loc) returns (ok: bool)
      requires Ok() && Quiet(books) && from in st.pte && to !in st.pte && from != to && Table(to.a, Pdx(to.v)) in st.own
      requires from in st.area && to in st.area && st.area[to] == st.area[from]
      requires st.area[from].back.Private? ==> !st.pte[from].w
      modifies this`st, this`books, this`eager
      ensures Ok() && Quiet(books) && st.area == old(st).area && st.cur == old(st).cur
      ensures st.mem == old(st).mem && st.own == old(st).own && st.pte == old(st).pte[to := old(st).pte[from]]
      ensures ok && CopiedPage(old(eager), eager, to, from)
    {
      var page := st.pte[from].page;
      assert PteOk(st, books, from) && PageOk(st, books, page) && Shows(st, eager, from);
      PrivateReadOnly(st, books, page, from);
      ok := PageInsert(to, page, st.pte[from].w);
    }

    // memcpy into the new page, which then is to's own
    method CopyInto(to: Loc, from: Loc, page: Page) returns (ok: bool)
      requires Ok() && from in st.pte && to !in st.pte && from != to && page in st.pages
      requires page in books.kind && books.kind[page].Hand? && forall p :: p in books.kind && books.kind[p].Hand? ==> p == page
      requires from in st.area && to in st.area && st.area[to] == st.area[from] && st.area[from].back.Private?
      requires Table(to.a, Pdx(to.v)) in st.own
      modifies this`st, this`books, this`eager
      ensures Ok() && Quiet(books) && st.area == old(st).area && st.cur == old(st).cur && st.own == old(st).own
      ensures ok && CopiedPage(old(eager), eager, to, from) && st.pte == old(st).pte[to := Pte(page, old(st).pte[from].w)]
    {
      assert PteOk(st, books, from) && PageOk(st, books, st.pte[from].page) && Shows(st, eager, from);
      var w := st.pte[from].w;
      CopyContents(page, st.pte[from].page);
      ok := PageInsert(to, page, w);
    }

    // A shared page is to's too; the new page was not needed.
    method ShareInto(to: Loc, from: Loc, spare: Option<Page>) returns (ok: bool)
      requires Ok() && from in st.pte && to !in st.pte && from != to && Table(to.a, Pdx(to.v)) in st.own
      requires forall p :: p in books.kind && books.kind[p].Hand? ==> Some(p) == spare
      requires spare.Some? ==> spare.value in st.pages && spare.value in books.kind && books.kind[spare.value].Hand?
      requires from in st.area && to in st.area && st.area[to] == st.area[from] && st.area[from].back.Shared?
      modifies this`st, this`books, this`eager
      ensures Ok() && Quiet(books) && st.area == old(st).area && st.cur == old(st).cur && st.own == old(st).own
      ensures ok && CopiedPage(old(eager), eager, to, from) && st.pte == old(st).pte[to := old(st).pte[from]]
    {
      assert PteOk(st, books, from) && PageOk(st, books, st.pte[from].page) && Shows(st, eager, from);
      ok := PageInsert(to, st.pte[from].page, st.pte[from].w);
      if spare.Some? {
        FreePage(spare.value);
      }
    }

    // One page of copy_range on ARM: a private page is copied at once
    method CopyPageEagerly(to: Loc, from: Loc, share: bool) returns (ok: bool)
      requires Ok() && Quiet(books) && from in st.pte && to !in st.pte && from != to
      requires from in st.area && to in st.area && st.area[to] == st.area[from] && share == st.area[from].back.Shared?
      modifies this`st, this`books, this`eager
      ensures Ok() && Quiet(books) && st.area == old(st).area && st.cur == old(st).cur
      ensures forall o :: o in old(st).own ==> o in st.own
      ensures NoNewChunks(old(st).own, st.own)
      ensures ok <==> |old(st.free)| >= (if Table(to.a, Pdx(to.v)) in old(st).own then 0 else 1) + (if share then 0 else 1)
      ensures ok ==> CopiedPage(old(eager), eager, to, from)
      ensures !ok ==> eager == old(eager) && st.pte == old(st).pte && st.free == {}
      ensures ok ==> to in st.pte && st.pte == old(st).pte[to := st.pte[to]] && st.pte[to].w == old(st).pte[from].w
      ensures ok ==> if share then st.pte[to].page == old(st).pte[from].page else st.pte[to].page in old(st).free
      ensures !ok ==> Table(to.a, Pdx(to.v)) !in st.own || !share
    {
      ok := GetPte(to, true);
      if !ok {
        return;
      }
      var newpage := AllocPage();
      if !share {
        if newpage.None? {
          return false;
        }
        ok := CopyInto(to, from, newpage.value);
      } else {
        ok := ShareInto(to, from, newpage);
      }
    }

    // copy_range, over page numbers: of arch/x86/pmm.c, or of arch/arm/pmm.c. It stops early, at page upto, only when
    // memory runs out.
    method CopyRange(to: Asid, from: Asid, lo: nat, hi: nat, share: bool, arm: bool) returns (ok: bool, ghost upto: nat)
      requires Ok() && Quiet(books) && lo < hi && to != from
      requires forall v :: lo <= v < hi ==>
                 Loc(from, v) in st.area && Loc(to, v) in st.area && st.area[Loc(to, v)] == st.area[Loc(from, v)]
                 && Loc(to, v) !in st.pte && share == st.area[Loc(from, v)].back.Shared?
      modifies this`st, this`books, this`eager
      ensures Ok() && Quiet(books) && st.area == old(st).area && st.cur == old(st).cur
      ensures lo <= upto <= hi && Copied(old(eager), eager, to, from, lo, upto)
      ensures if ok then upto == hi else upto < hi && Stuck(st, to, from, arm, upto)
      ensures NoNewChunks(old(st).own, st.own) && (!arm ==> st.mem == old(st).mem)
    {
      var v := lo;
      assert forall l :: CopiedAt(eager, eager, to, from, lo, lo, l);
      assert forall x :: lo <= x < hi ==> Shows(st, eager, Loc(to, x));
      while v < hi
        invariant Ok() && Quiet(books) && lo <= v && st.area == old(st).area && st.cur == old(st).cur
        invariant Copied(old(eager), eager, to, from, lo, if v < hi then v else hi)
        invariant NoNewChunks(old(st).own, st.own) && (!arm ==> st.mem == old(st).mem)
      {
        var l, src := Loc(to, v), Loc(from, v);
        if Table(from, Pdx(v)) !in st.own {
          var next := (Pdx(v) + 1) * 1024;
          CopiedSkip(st, books, old(eager), eager, to, from, lo, v, if next < hi then next else hi);
          v := next;
        } else {
          ghost var was := eager;
          assert CopiedAt(old(eager), eager, to, from, lo, v, l) && Shows(st, eager, l) && Shows(st, eager, src);
          if src in st.pte {
            assert PteOk(st, books, src);
            if arm {
              ok := CopyPageEagerly(l, src, share);
            } else {
              ok := CopyPage(l, src, share);
            }
            if !ok {
              return false, v;
            }
          }
          assert Shows(old(st), old(eager), src);
          CopiedOne(old(eager), was, eager, to, from, lo, v);
          v := v + 1;
        }
      }
      return true, hi;
    }

    // copy_range of dup_mmap's loop: the area x of from, to all of whose pages to has nothing yet
    method DupPages(to: Asid, from: Asid, x: Area, arm: bool) returns (ok: bool, ghost upto: nat)
      requires Ok() && Quiet(books) && to != from && FirstPage(x) < EndPage(x) && Copyable(x, st.area, to, from)
      modifies this`st, this`books, this`eager
      ensures Ok() && Quiet(books) && st.cur == old(st).cur
      ensures FirstPage(x) <= upto <= EndPage(x) && (if ok then upto == EndPage(x) else Stuck(st, to, from, arm, upto))
      ensures Copied(old(eager).(area := AreaCopied(old(st).area, to, from, FirstPage(x), EndPage(x))), eager,
                     to, from, FirstPage(x), upto)
      ensures NoNewChunks(old(st).own, st.own) && (!arm ==> st.mem == old(st).mem)
    {
      var lo, hi := FirstPage(x), EndPage(x);
      forall v | lo <= v < hi ensures Loc(to, v) !in st.pte {
        PresentInArea(st, books, Loc(to, v));
      }
      var area := AreaCopied(st.area, to, from, lo, hi);
      AreaKeeps(st, books, eager, area);
      eager := eager.(area := area);
      st := st.(area := area);
      ok, upto := CopyRange(to, from, lo, hi, x.flags.share, arm);
    }

    // dup_mmap: the areas of from, last to first; kmalloc serves room of its calls to vma_create
    method DupMmap(to: Asid, from: Asid, vmas: seq<Area>, arm: bool, room: nat) returns (ok: bool, k: nat)
      requires Ok() && Quiet(books) && to != from && Positive(refs)
      requires Denotes(vmas, st.area, from) && forall l :: l in st.area ==> l.a != to
      modifies this`st, this`books, this`eager, this`refs
      ensures Ok() && Quiet(books) && st.cur == old(st).cur
      ensures if ok then Forked(old(eager), eager, to, from) else PartlyForked(old(eager), eager, to, from)
      ensures k <= |vmas| && Denotes(vmas[k..], st.area, to) && Counted(refs, old(refs), vmas[k..])
      ensures if ok then k == 0 else (k > 0 && |vmas| - k == room) || exists v: nat :: Stuck(st, to, from, arm, v)
      ensures NoNewChunks(old(st).own, st.own) && (!arm ==> st.mem == old(st).mem)
    {
      var i := |vmas|;
      ForkBegins(vmas, st, books, eager, to, from);
      while i > 0
        invariant 0 <= i <= |vmas| && Ok() && Quiet(books) && st.cur == old(st).cur
        invariant ForkedFrom(old(eager), eager, to, from, Edge(vmas, i)) && Counted(refs, old(refs), vmas[i..])
        invariant NoNewChunks(old(st).own, st.own) && (!arm ==> st.mem == old(st).mem)
      {
        ghost var m := Edge(vmas, i);
        ForkedIsPartly(old(eager), eager, to, from, m);
        // vma_create
        if |vmas| - i == room {
          SuffixDenotes(vmas, old(st).area, st.area, to, from, i);
          return false, i;
        }
        i := i - 1;
        ghost var v;
        ok, v := DupNext(to, from, vmas, i, arm, old(st), old(books), old(eager), old(refs));
        if !ok {
          SuffixDenotes(vmas, old(st).area, st.area, to, from, i);
          return false, i;
        }
      }
      ForkEnds(vmas, old(st), old(books), old(eager), eager, to, from);
      ForkedIsPartly(old(eager), eager, to, from, Edge(vmas, 0));
      SuffixDenotes(vmas, old(st).area, st.area, to, from, 0);
      return true, 0;
    }

    // One turn of its loop, once vma_create has made the new area
    method DupNext(to: Asid, from: Asid, vmas: seq<Area>, i: nat, arm: bool,
                   ghost s0: State, ghost b0: Books, ghost v0: View, ghost refs0: map<nat, nat>)
      returns (ok: bool, ghost v: nat)
      requires Ok() && Quiet(books) && to != from && i < |vmas|
      requires Inv(s0, b0) && Refines(s0, v0) && Denotes(vmas, s0.area, from)
      requires ForkedFrom(v0, eager, to, from, Edge(vmas, i + 1)) && Counted(refs, refs0, vmas[i + 1..])
      modifies this`st, this`books, this`eager, this`refs
      ensures Ok() && Quiet(books) && st.cur == old(st).cur && Counted(refs, refs0, vmas[i..])
      ensures ok ==> ForkedFrom(v0, eager, to, from, Edge(vmas, i))
      ensures !ok ==> PartlyForked(v0, eager, to, from) && AreaFrom(v0.area, eager.area, to, from, Edge(vmas, i))
      ensures !ok ==> Stuck(st, to, from, arm, v)
      ensures NoNewChunks(old(st).own, st.own) && (!arm ==> st.mem == old(st).mem)
    {
      ghost var m := Edge(vmas, i + 1);
      assert HasObject(vmas[i]);
      CountedFront(refs, refs0, vmas, i);
      var vma := vmas[i];
      if vma.flags.share {
        refs := RefInc(refs, vma.shmem.value);
      }
      ghost var was := eager;
      forall x: nat | EndPage(vma) <= x < m ensures Loc(from, x) !in v0.area && !Present(v0, Loc(from, x)) {
        GapIsEmpty(vmas, s0, b0, v0, from, x, i + 1);
      }
      AreaIsReady(vmas, s0.area, v0, eager, to, from, i, m);
      ok, v := DupPages(to, from, vma, arm);
      if ok {
        ForkStep(v0, was, eager, to, from, FirstPage(vma), EndPage(vma), m);
      } else {
        ForkPart(v0, was, eager, to, from, FirstPage(vma), EndPage(vma), m, v);
      }
    }

    // lcr3: the TLB is flushed
    method LoadPageDir(a: Asid)
      requires Ok()
      modifies this`st
      ensures Ok() && st == old(st).(cur := a, tlb := map[])
    {
      MemKeeps(st, st.(cur := a, tlb := map[]), books);
      SameView(st, st.(cur := a, tlb := map[]), eager);
      st := st.(cur := a, tlb := map[]);
    }

    method SetArea(area: map<Loc, Rights>)
      requires Ok() && forall l :: l in st.pte && l in st.area ==> l in area && area[l] == st.area[l]
      modifies this`st, this`books, this`eager
      ensures Ok() && st == old(st).(area := area) && eager == old(eager).(area := area) && books == old(books)
    {
      AreaKeeps(st, books, eager, area);
      eager := eager.(area := area);
      st := st.(area := area);
    }

    // free_page(pde2page(pgdir[i])), pgdir[i] = 0; or the page of a chunk's entries
    method Disown(o: Owner)
      requires Ok() && Quiet(books) && o in st.own && Unneeded(st, o)
      modifies this`st, this`books, this`eager
      ensures Ok() && Quiet(books) && eager == old(eager) && st == Disowned(old(st), o)
    {
      DisownKeeps(st, books, o);
      SameView(st, Disowned(st, o), eager);
      books := books.(kind := books.kind[st.own[o] := Free]);
      st := Disowned(st, o);
    }

    // exit_range: the page tables of [lo, hi), none of which holds an entry any more
    method ExitRange(a: Asid, lo: nat, hi: nat)
      requires Ok() && Quiet(books) && lo < hi && forall l :: l in st.pte ==> l.a != a
      modifies this`st, this`books, this`eager
      ensures Ok() && Quiet(books) && eager == old(eager)
      ensures st == old(st).(free := st.free, ref := st.ref, own := st.own)
      ensures TablesGone(old(st).own, st.own, a, Pdx(lo), Pdx(hi - 1) + 1)
    {
      var i := Pdx(lo);
      while i * 1024 < hi
        invariant Ok() && Quiet(books) && eager == old(eager) && Pdx(lo) <= i <= Pdx(hi - 1) + 1
        invariant st == old(st).(free := st.free, ref := st.ref, own := st.own)
        invariant TablesGone(old(st).own, st.own, a, Pdx(lo), i)
      {
        if Table(a, i) in st.own {
          Disown(Table(a, i));
        }
        i := i + 1;
      }
    }

    // shmem_remove_entry_pte, on an entry that no area maps
    method DropEntry(e: Ent)
      requires Ok() && Quiet(books) && forall l :: l in st.area ==> st.area[l].back != Shared(e)
      modifies this`st, this`books, this`eager
      ensures Ok() && Quiet(books)
      ensures st == old(st).(free := st.free, ref := st.ref, ent := old(st).ent - {e})
      ensures if e in old(st).ent then Doable(old(st), Drop(e)) && st == After(old(st), Drop(e)) else st == old(st)
      ensures eager == old(eager).(shm := old(eager).shm - {e})
    {
      assert ShowsEnt(st, eager, e);
      if e in st.ent {
        DropKeeps(st, books, e);
        DropView(st, eager, e);
        eager := eager.(shm := eager.shm - {e});
        books := books.(kind := books.kind[st.ent[e] := Free]);
        st := Dropped(st, e);
      } else {
        assert st.ent - {e} == st.ent && eager.shm - {e} == eager.shm;
      }
    }

    // shmn_destroy: the entries of a chunk that no area maps, then the array that held them
    method ShmnDestroy(obj: nat, no: nat) returns (ghost done: seq<Step>)
      requires Ok() && Quiet(books) && Chunk(obj, no) in st.own
      requires forall l :: l in st.area ==> st.area[l].back.Private? || st.area[l].back.ent.obj != obj
      modifies this`st, this`books, this`eager
      ensures Ok() && Quiet(books)
      ensures st == old(st).(free := st.free, ref := st.ref, own := st.own, ent := st.ent)
      ensures st.own == old(st).own - {Chunk(obj, no)}
      ensures eager == old(eager).(shm := eager.shm)
      ensures ChunkGone(old(st).ent, st.ent, obj, no) && ChunkGone(old(eager).shm, eager.shm, obj, no)
      ensures Path(old(st), st, done)
    {
      done := DropEntries(obj, no);
      ghost var s := st;
      Disown(Chunk(obj, no));
      PathMore(old(st), s, done, Step.Disown(Chunk(obj, no)));
      done := done + [Step.Disown(Chunk(obj, no))];
    }

    // The loop of shmn_destroy
    method DropEntries(obj: nat, no: nat) returns (ghost done: seq<Step>)
      requires Ok() && Quiet(books)
      requires forall l :: l in st.area ==> st.area[l].back.Private? || st.area[l].back.ent.obj != obj
      modifies this`st, this`books, this`eager
      ensures Ok() && Quiet(books)
      ensures st == old(st).(free := st.free, ref := st.ref, ent := st.ent) && eager == old(eager).(shm := eager.shm)
      ensures ChunkGone(old(st).ent, st.ent, obj, no) && ChunkGone(old(eager).shm, eager.shm, obj, no)
      ensures Path(old(st), st, done)
    {
      done := [];
      var i := 0;
      var lo := no * 1024;
      NoneDropped(st.ent, obj, lo);
      NoneDropped(eager.shm, obj, lo);
      while i < 1024
        invariant Ok() && Quiet(books) && 0 <= i <= 1024
        invariant st == old(st).(free := st.free, ref := st.ref, ent := st.ent) && eager == old(eager).(shm := eager.shm)
        invariant DroppedTo(old(st).ent, st.ent, obj, lo, lo + i) && DroppedTo(old(eager).shm, eager.shm, obj, lo, lo + i)
        invariant Path(old(st), st, done)
      {
        ghost var s := st;
        DropNext(old(st).ent, st.ent, obj, lo, lo + i);
        DropNext(old(eager).shm, eager.shm, obj, lo, lo + i);
        DropEntry(Ent(obj, lo + i));
        if Ent(obj, lo + i) in s.ent {
          PathMore(old(st), s, done, Drop(Ent(obj, lo + i)));
          done := done + [Drop(Ent(obj, lo + i))];
        }
        i := i + 1;
      }
      ChunkDropped(old(st).ent, st.ent, obj, no);
      ChunkDropped(old(eager).shm, eager.shm, obj, no);
    }

    // shmem_destroy of an object that no area maps
    method ShmemDestroy(obj: nat) returns (ghost done: seq<Step>)
      requires Ok() && Quiet(books)
      requires forall l :: l in st.area ==> st.area[l].back.Private? || st.area[l].back.ent.obj != obj
      modifies this`st, this`books, this`eager, this`lens
      ensures Ok() && Quiet(books)
      ensures st == old(st).(free := st.free, ref := st.ref, own := st.own, ent := st.ent)
      ensures eager == old(eager).(shm := eager.shm)
      ensures ChunksLeft(old(st).own, st.own, obj, {}) && lens == old(lens) - {obj} && Path(old(st), st, done)
      ensures ObjectGone(old(st).ent, st.ent, obj) && ObjectGone(old(eager).shm, eager.shm, obj)
    {
      done := DropChunks(obj);
      lens := lens - {obj};
      forall e | e in st.ent || e in eager.shm ensures e.obj != obj {
        assert ShowsEnt(st, eager, e) && EntOk(st, books, e);
      }
    }

    // Its loop over the chunks
    method DropChunks(obj: nat) returns (ghost done: seq<Step>)
      requires Ok() && Quiet(books)
      requires forall l :: l in st.area ==> st.area[l].back.Private? || st.area[l].back.ent.obj != obj
      modifies this`st, this`books, this`eager
      ensures Ok() && Quiet(books)
      ensures st == old(st).(free := st.free, ref := st.ref, own := st.own, ent := st.ent)
      ensures eager == old(eager).(shm := eager.shm)
      ensures ChunksLeft(old(st).own, st.own, obj, {}) && Path(old(st), st, done)
      ensures ObjectGoing(old(st).ent, st.ent, obj) && ObjectGoing(old(eager).shm, eager.shm, obj)
    {
      done := [];
      var todo := set o | o in st.own && o.Chunk? && o.obj == obj;
      while todo != {}
        invariant Ok() && Quiet(books) && forall o :: o in todo ==> o in st.own && o.Chunk? && o.obj == obj
        invariant st == old(st).(free := st.free, ref := st.ref, own := st.own, ent := st.ent)
        invariant eager == old(eager).(shm := eager.shm) && ChunksLeft(old(st).own, st.own, obj, todo)
        invariant Path(old(st), st, done)
        invariant ObjectGoing(old(st).ent, st.ent, obj) && ObjectGoing(old(eager).shm, eager.shm, obj)
        decreases todo
      {
        var o :| o in todo;
        ghost var s := st;
        ghost var more := ShmnDestroy(obj, o.no);
        PathConcat(old(st), s, st, done, more);
        done := done + more;
        todo := todo - {o};
      }
    }
  }
}
