/**
 The state behind page tables, page reference counts and copy-on-write (arch/x86/pmm.c, kern/mm/vmm.c,
 kern/mm/shmem.c): the invariant that every kernel operation keeps, and the eager view of memory in which
 every private page has contents of its own.
 */
module PageState {

  import opened Units

  // PDX: which page table, or which chunk of a shared memory object, a page number falls in
  function Pdx(v: nat): nat { v / 1024 }

  type Page = nat
  type Asid = nat
  type Data = d: seq<int> | |d| == PGSIZE witness seq(PGSIZE, _ => 0)

  // A user page: address space and virtual page number
  datatype Loc = Loc(a: Asid, v: nat)

  datatype Pte = Pte(page: Page, w: bool)

  // A page of a shared memory object
  datatype Ent = Ent(obj: nat, idx: nat)

  datatype Backing = Private | Shared(ent: Ent)

  // What the areas of an address space say about one page
  datatype Rights = Rights(read: bool, write: bool, back: Backing)

  // Pages the kernel owns outright: page tables and the entry arrays of shared memory chunks
  datatype Owner = Table(a: Asid, pdx: nat) | Chunk(obj: nat, no: nat)

  datatype State = State(
    pages: set<Page>,
    free: set<Page>,
    ref: map<Page, int>,
    mem: map<Page, Data>,
    pte: map<Loc, Pte>,
    own: map<Owner, Page>,
    ent: map<Ent, Page>,
    area: map<Loc, Rights>,
    cur: Asid,
    tlb: map<nat, Pte>)

  // ---------- the invariant ----------

  // What a page is: free, in the kernel's hand, owned, mapped privately, or the page of a shared memory entry
  datatype Kind = Free | Hand | Own(o: Owner) | Priv | Shm(e: Ent)

  // Bookkeeping that the kernel does not store
  datatype Books = Books(kind: map<Page, Kind>, users: map<Page, set<Loc>>)

  // Free pages and pages in hand are named by nothing; a count is the number of PTEs and entries naming the page.
  ghost predicate PageOk(s: State, b: Books, p: Page) {
    p in b.kind && p in b.users && p in s.ref && p in s.mem
    && (forall l :: l in b.users[p] ==> l in s.pte && s.pte[l].page == p)
    && (p in s.free <==> b.kind[p].Free?)
    && match b.kind[p]
       case Free => b.users[p] == {} && s.ref[p] == 0
       case Hand => b.users[p] == {} && s.ref[p] == 0
       case Own(o) => b.users[p] == {} && o in s.own && s.own[o] == p
       case Priv => b.users[p] != {} && s.ref[p] == |b.users[p]|
       case Shm(e) => e in s.ent && s.ent[e] == p && s.ref[p] == |b.users[p]| + 1
  }

  // A present entry lies in an area; a writable private page has no other user.
  ghost predicate PteOk(s: State, b: Books, l: Loc) {
    l in s.pte && s.pte[l].page in s.pages
    && var p := s.pte[l].page;
       p in b.kind && p in b.users && l in b.users[p]
       && l in s.area && Table(l.a, Pdx(l.v)) in s.own
       && match s.area[l].back
          case Private => b.kind[p].Priv? && (s.pte[l].w ==> s.area[l].write && b.users[p] == {l})
          case Shared(e) => b.kind[p] == Shm(e) && s.pte[l].w == s.area[l].write
  }

  ghost predicate OwnOk(s: State, b: Books, o: Owner) {
    o in s.own && s.own[o] in s.pages && s.own[o] in b.kind && b.kind[s.own[o]] == Own(o)
  }

  ghost predicate EntOk(s: State, b: Books, e: Ent) {
    e in s.ent && s.ent[e] in s.pages && s.ent[e] in b.kind && b.kind[s.ent[e]] == Shm(e)
    && Chunk(e.obj, Pdx(e.idx)) in s.own
  }

  ghost predicate TlbOk(s: State) {
    forall v :: v in s.tlb ==> Loc(s.cur, v) in s.pte && s.pte[Loc(s.cur, v)] == s.tlb[v]
  }

  ghost predicate Inv(s: State, b: Books) {
    s.free <= s.pages && TlbOk(s)
    && (forall p {:trigger PageOk(s, b, p)} :: p in s.pages ==> PageOk(s, b, p))
    && (forall l {:trigger PteOk(s, b, l)} :: l in s.pte ==> PteOk(s, b, l))
    && (forall o {:trigger OwnOk(s, b, o)} :: o in s.own ==> OwnOk(s, b, o))
    && (forall e {:trigger EntOk(s, b, e)} :: e in s.ent ==> EntOk(s, b, e))
  }

  lemma PresentInArea(s: State, b: Books, l: Loc)
    requires Inv(s, b)
    ensures l in s.pte ==> l in s.area
  {
    if l in s.pte {
      assert PteOk(s, b, l);
    }
  }

  // ---------- the eager view: what every address reads ----------

  datatype View = View(area: map<Loc, Rights>, priv: map<Loc, Data>, shm: map<Ent, Data>, att: set<Loc>)

  ghost predicate Shows(s: State, v: View, l: Loc) {
    (l in v.priv <==> l in s.pte && l in s.area && s.area[l].back.Private?)
    && (l in v.att <==> l in s.pte && l in s.area && s.area[l].back.Shared?)
    && (l in v.priv ==> s.pte[l].page in s.mem && v.priv[l] == s.mem[s.pte[l].page])
  }

  ghost predicate ShowsEnt(s: State, v: View, e: Ent) {
    (e in v.shm <==> e in s.ent) && (e in v.shm ==> s.ent[e] in s.mem && v.shm[e] == s.mem[s.ent[e]])
  }

  ghost predicate Refines(s: State, v: View) {
    v.area == s.area
    && (forall l {:trigger Shows(s, v, l)} :: Shows(s, v, l))
    && (forall e {:trigger ShowsEnt(s, v, e)} :: ShowsEnt(s, v, e))
  }

  // ---------- primitive operations ----------

  function Untlb(s: State, l: Loc): map<nat, Pte> { if l.a == s.cur then s.tlb - {l.v} else s.tlb }

  // free_page also clears the count (buddy_free_pages_sub)
  function Freed(s: State, p: Page): State { s.(free := s.free + {p}, ref := s.ref[p := 0]) }

  // page_remove_pte on a present entry
  function Removed(s: State, l: Loc): State
    requires l in s.pte && s.pte[l].page in s.ref
  {
    var p := s.pte[l].page;
    s.(ref := s.ref[p := s.ref[p] - 1], pte := s.pte - {l}, tlb := Untlb(s, l),
       free := if s.ref[p] == 1 then s.free + {p} else s.free)
  }

  ghost function BooksRemoved(b: Books, l: Loc, p: Page): Books
    requires p in b.users && p in b.kind
  {
    var u := b.users[p] - {l};
    Books(if u == {} && b.kind[p].Priv? then b.kind[p := Free] else b.kind, b.users[p := u])
  }

  // The page of a removed entry is freed exactly when nothing else names it.
  lemma RemovePage(s: State, b: Books, l: Loc)
    requires PteOk(s, b, l) && PageOk(s, b, s.pte[l].page)
    ensures PageOk(Removed(s, l), BooksRemoved(b, l, s.pte[l].page), s.pte[l].page)
  {
    var u := b.users[s.pte[l].page];
    assert |u - {l}| == |u| - 1;
    assert u - {l} == {} <==> |u - {l}| == 0;
  }

  lemma RemoveOtherPage(s: State, b: Books, l: Loc, q: Page)
    requires PteOk(s, b, l) && PageOk(s, b, s.pte[l].page) && PageOk(s, b, q) && q != s.pte[l].page
    ensures PageOk(Removed(s, l), BooksRemoved(b, l, s.pte[l].page), q)
  {
  }

  lemma RemoveOtherPte(s: State, b: Books, l: Loc, k: Loc)
    requires PteOk(s, b, l) && PageOk(s, b, s.pte[l].page) && PteOk(s, b, k) && k != l
    ensures PteOk(Removed(s, l), BooksRemoved(b, l, s.pte[l].page), k)
  {
  }

  lemma RemoveOwners(s: State, b: Books, l: Loc)
    requires Inv(s, b) && PteOk(s, b, l) && PageOk(s, b, s.pte[l].page)
    ensures var s', b' := Removed(s, l), BooksRemoved(b, l, s.pte[l].page);
            TlbOk(s') && (forall o {:trigger OwnOk(s', b', o)} :: o in s'.own ==> OwnOk(s', b', o))
            && (forall e {:trigger EntOk(s', b', e)} :: e in s'.ent ==> EntOk(s', b', e))
  {
    var s', b' := Removed(s, l), BooksRemoved(b, l, s.pte[l].page);
    forall o | o in s'.own ensures OwnOk(s', b', o) {
      assert OwnOk(s, b, o);
    }
    forall e | e in s'.ent ensures EntOk(s', b', e) {
      assert EntOk(s, b, e);
    }
  }

  lemma RemoveKeeps(s: State, b: Books, l: Loc)
    requires Inv(s, b) && l in s.pte
    ensures PteOk(s, b, l) && PageOk(s, b, s.pte[l].page)
    ensures Inv(Removed(s, l), BooksRemoved(b, l, s.pte[l].page))
  {
    assert PteOk(s, b, l);
    var p := s.pte[l].page;
    assert PageOk(s, b, p);
    var s', b' := Removed(s, l), BooksRemoved(b, l, p);
    RemovePage(s, b, l);
    RemoveOwners(s, b, l);
    forall q | q in s'.pages && q != p ensures PageOk(s', b', q) {
      assert PageOk(s, b, q);
      RemoveOtherPage(s, b, l, q);
    }
    forall k | k in s'.pte ensures PteOk(s', b', k) {
      assert PteOk(s, b, k);
      RemoveOtherPte(s, b, l, k);
    }
  }

  lemma RemoveView(s: State, v: View, l: Loc)
    requires Refines(s, v) && l in s.pte && s.pte[l].page in s.ref
    ensures Refines(Removed(s, l), v.(priv := v.priv - {l}, att := v.att - {l}))
  {
    var s', v' := Removed(s, l), v.(priv := v.priv - {l}, att := v.att - {l});
    forall k ensures Shows(s', v', k) {
      assert Shows(s, v, k);
    }
    forall e ensures ShowsEnt(s', v', e) {
      assert ShowsEnt(s, v, e);
    }
  }

  // page_insert where no entry was present: what the caller must know of the page
  ghost predicate MayLink(s: State, b: Books, l: Loc, p: Page, w: bool) {
    l !in s.pte && p in s.pages && p in b.kind && l in s.area && Table(l.a, Pdx(l.v)) in s.own
    && match s.area[l].back
       case Private =>
         (w ==> s.area[l].write && b.kind[p].Hand?)
         && (b.kind[p].Hand? || (b.kind[p].Priv? && p in b.users && forall k :: k in b.users[p] ==> k in s.pte && !s.pte[k].w))
       case Shared(e) => b.kind[p] == Shm(e) && w == s.area[l].write
  }

  function Linked(s: State, l: Loc, p: Page, w: bool): State
    requires p in s.ref
  {
    s.(ref := s.ref[p := s.ref[p] + 1], pte := s.pte[l := Pte(p, w)], tlb := Untlb(s, l))
  }

  ghost function BooksLinked(b: Books, l: Loc, p: Page): Books
    requires p in b.users && p in b.kind
  {
    Books(if b.kind[p].Hand? then b.kind[p := Priv] else b.kind, b.users[p := b.users[p] + {l}])
  }

  lemma LinkPage(s: State, b: Books, l: Loc, p: Page, w: bool)
    requires PageOk(s, b, p) && MayLink(s, b, l, p, w)
    ensures PageOk(Linked(s, l, p, w), BooksLinked(b, l, p), p)
    ensures PteOk(Linked(s, l, p, w), BooksLinked(b, l, p), l)
  {
    assert l !in b.users[p] && |b.users[p] + {l}| == |b.users[p]| + 1;
  }

  lemma LinkOwners(s: State, b: Books, l: Loc, p: Page, w: bool)
    requires Inv(s, b) && MayLink(s, b, l, p, w) && PageOk(s, b, p)
    ensures var s', b' := Linked(s, l, p, w), BooksLinked(b, l, p);
            TlbOk(s') && (forall o {:trigger OwnOk(s', b', o)} :: o in s'.own ==> OwnOk(s', b', o))
            && (forall e {:trigger EntOk(s', b', e)} :: e in s'.ent ==> EntOk(s', b', e))
  {
    var s', b' := Linked(s, l, p, w), BooksLinked(b, l, p);
    forall o | o in s'.own ensures OwnOk(s', b', o) {
      assert OwnOk(s, b, o);
    }
    forall e | e in s'.ent ensures EntOk(s', b', e) {
      assert EntOk(s, b, e);
    }
  }

  lemma LinkKeeps(s: State, b: Books, l: Loc, p: Page, w: bool)
    requires Inv(s, b) && MayLink(s, b, l, p, w)
    ensures PageOk(s, b, p) && Inv(Linked(s, l, p, w), BooksLinked(b, l, p))
  {
    assert PageOk(s, b, p);
    var s', b' := Linked(s, l, p, w), BooksLinked(b, l, p);
    LinkPage(s, b, l, p, w);
    LinkOwners(s, b, l, p, w);
    forall q | q in s'.pages && q != p ensures PageOk(s', b', q) {
      assert PageOk(s, b, q);
      LinkOtherPage(s, b, l, p, w, q);
    }
    forall k | k in s'.pte && k != l ensures PteOk(s', b', k) {
      assert PteOk(s, b, k);
      LinkOther(s, b, l, p, w, k);
    }
  }

  lemma LinkOtherPage(s: State, b: Books, l: Loc, p: Page, w: bool, q: Page)
    requires PageOk(s, b, p) && MayLink(s, b, l, p, w) && PageOk(s, b, q) && q != p
    ensures PageOk(Linked(s, l, p, w), BooksLinked(b, l, p), q)
  {
  }

  lemma LinkOther(s: State, b: Books, l: Loc, p: Page, w: bool, k: Loc)
    requires PageOk(s, b, p) && MayLink(s, b, l, p, w) && PteOk(s, b, k) && k != l
    ensures PteOk(Linked(s, l, p, w), BooksLinked(b, l, p), k)
  {
  }

  lemma LinkView(s: State, v: View, l: Loc, p: Page, w: bool)
    requires Refines(s, v) && p in s.ref && p in s.mem && l in s.area && l !in s.pte
    ensures Refines(Linked(s, l, p, w), if s.area[l].back.Private? then v.(priv := v.priv[l := s.mem[p]])
                                        else v.(att := v.att + {l}))
  {
    var s' := Linked(s, l, p, w);
    var v' := if s.area[l].back.Private? then v.(priv := v.priv[l := s.mem[p]]) else v.(att := v.att + {l});
    forall k ensures Shows(s', v', k) {
      assert Shows(s, v, k);
    }
    forall e ensures ShowsEnt(s', v', e) {
      assert ShowsEnt(s, v, e);
    }
  }

  // page_insert of the page that is already there: only the permission changes
  function Relinked(s: State, l: Loc, w: bool): State
    requires l in s.pte
  {
    s.(pte := s.pte[l := s.pte[l].(w := w)], tlb := Untlb(s, l))
  }

  ghost predicate MayRelink(s: State, b: Books, l: Loc, w: bool) {
    l in s.pte && l in s.area
    && match s.area[l].back
       case Private => w ==> s.area[l].write && s.pte[l].page in b.users && b.users[s.pte[l].page] == {l}
       case Shared(_) => w == s.area[l].write
  }

  lemma RelinkKeeps(s: State, b: Books, l: Loc, w: bool)
    requires Inv(s, b) && MayRelink(s, b, l, w)
    ensures Inv(Relinked(s, l, w), b)
  {
    var s' := Relinked(s, l, w);
    forall q | q in s'.pages ensures PageOk(s', b, q) {
      assert PageOk(s, b, q);
    }
    forall k | k in s'.pte ensures PteOk(s', b, k) {
      assert PteOk(s, b, k);
    }
    forall o | o in s'.own ensures OwnOk(s', b, o) {
      assert OwnOk(s, b, o);
    }
    forall e | e in s'.ent ensures EntOk(s', b, e) {
      assert EntOk(s, b, e);
    }
  }

  lemma RelinkView(s: State, v: View, l: Loc, w: bool)
    requires Refines(s, v) && l in s.pte
    ensures Refines(Relinked(s, l, w), v)
  {
    forall k ensures Shows(Relinked(s, l, w), v, k) {
      assert Shows(s, v, k);
    }
    forall e ensures ShowsEnt(Relinked(s, l, w), v, e) {
      assert ShowsEnt(s, v, e);
    }
  }

  // page_insert
  function Inserted(s: State, l: Loc, p: Page, w: bool): State
    requires p in s.ref && (l in s.pte ==> s.pte[l].page in s.ref)
  {
    if l !in s.pte then Linked(s, l, p, w)
    else if s.pte[l].page == p then Relinked(s, l, w)
    else Linked(Removed(s, l), l, p, w)
  }

  // ---------- pages changing hands ----------

  // s' differs from s in what p is, and in the owners and entries that name p; p has no users.
  ghost predicate Rekinded(s: State, b: Books, s': State, k: Kind, p: Page) {
    s' == s.(free := s'.free, ref := s'.ref, own := s'.own, ent := s'.ent)
    && p in s.pages && p in b.kind && p in b.users && b.users[p] == {}
    && (forall q :: q in s.pages && q != p ==> ((q in s'.ref <==> q in s.ref) && (q in s.ref ==> s'.ref[q] == s.ref[q])))
    && (forall q :: q != p ==> (q in s'.free <==> q in s.free))
    && (forall o :: o in s.own && s.own[o] != p ==> o in s'.own && s'.own[o] == s.own[o])
    && (forall o :: o in s'.own ==> if s'.own[o] == p then k == Own(o) else o in s.own && s.own[o] == s'.own[o])
    && (forall e :: e in s.ent && s.ent[e] != p ==> e in s'.ent && s'.ent[e] == s.ent[e])
    && (forall e :: e in s'.ent ==> if s'.ent[e] == p then k == Shm(e) else e in s.ent && s.ent[e] == s'.ent[e])
    && PageOk(s', b.(kind := b.kind[p := k]), p)
  }

  // No page table in use, and no chunk in use, is lost.
  ghost predicate NothingNeeded(s: State, s': State) {
    (forall l :: l in s.pte && Table(l.a, Pdx(l.v)) in s.own ==> Table(l.a, Pdx(l.v)) in s'.own)
    && (forall e :: e in s'.ent ==> Chunk(e.obj, Pdx(e.idx)) in s'.own)
  }

  lemma KindKeepsOwners(s: State, b: Books, s': State, k: Kind, p: Page)
    requires Inv(s, b) && Rekinded(s, b, s', k, p) && NothingNeeded(s, s')
    ensures var b' := b.(kind := b.kind[p := k]);
            (forall o {:trigger OwnOk(s', b', o)} :: o in s'.own ==> OwnOk(s', b', o))
            && (forall e {:trigger EntOk(s', b', e)} :: e in s'.ent ==> EntOk(s', b', e))
  {
    var b' := b.(kind := b.kind[p := k]);
    forall o | o in s'.own ensures OwnOk(s', b', o) {
      if o in s.own {
        assert OwnOk(s, b, o);
      }
    }
    forall e | e in s'.ent ensures EntOk(s', b', e) {
      if e in s.ent {
        assert EntOk(s, b, e);
      }
    }
  }

  lemma KindOtherPage(s: State, b: Books, s': State, k: Kind, p: Page, q: Page)
    requires Rekinded(s, b, s', k, p) && PageOk(s, b, q) && q in s.pages && q != p
    ensures PageOk(s', b.(kind := b.kind[p := k]), q)
  {
  }

  lemma KindPte(s: State, b: Books, s': State, k: Kind, p: Page, l: Loc)
    requires Rekinded(s, b, s', k, p) && NothingNeeded(s, s') && PteOk(s, b, l)
    ensures PteOk(s', b.(kind := b.kind[p := k]), l)
  {
  }

  lemma KindKeeps(s: State, b: Books, s': State, k: Kind, p: Page)
    requires Inv(s, b) && Rekinded(s, b, s', k, p) && NothingNeeded(s, s')
    ensures Inv(s', b.(kind := b.kind[p := k]))
  {
    var b' := b.(kind := b.kind[p := k]);
    KindKeepsOwners(s, b, s', k, p);
    forall q | q in s'.pages && q != p ensures PageOk(s', b', q) {
      assert PageOk(s, b, q);
      KindOtherPage(s, b, s', k, p, q);
    }
    forall l | l in s'.pte ensures PteOk(s', b', l) {
      assert PteOk(s, b, l);
      KindPte(s, b, s', k, p, l);
    }
  }

  // Who owns and who names the pages, spelled out for a page about to change kind
  lemma Named(s: State, b: Books)
    requires Inv(s, b)
    ensures forall o :: o in s.own ==> s.own[o] in b.kind && b.kind[s.own[o]] == Own(o)
    ensures forall e :: e in s.ent ==> s.ent[e] in b.kind && b.kind[s.ent[e]] == Shm(e) && Chunk(e.obj, Pdx(e.idx)) in s.own
  {
    assert forall o :: o in s.own ==> OwnOk(s, b, o);
    assert forall e :: e in s.ent ==> EntOk(s, b, e);
  }

  lemma AllocKeeps(s: State, b: Books, p: Page)
    requires Inv(s, b) && p in s.free
    ensures Inv(s.(free := s.free - {p}), b.(kind := b.kind[p := Hand]))
  {
    assert PageOk(s, b, p);
    Named(s, b);
    KindKeeps(s, b, s.(free := s.free - {p}), Hand, p);
  }

  lemma FreeKeeps(s: State, b: Books, p: Page)
    requires Inv(s, b) && p in s.pages && p in b.kind && b.kind[p].Hand?
    ensures Inv(Freed(s, p), b.(kind := b.kind[p := Free]))
  {
    assert PageOk(s, b, p);
    Named(s, b);
    KindKeeps(s, b, Freed(s, p), Free, p);
  }

  // A page in hand becomes a page table or the entry array of a chunk.
  function Owned(s: State, o: Owner, p: Page, r: int): State { s.(own := s.own[o := p], ref := s.ref[p := r]) }

  lemma OwnKeeps(s: State, b: Books, p: Page, o: Owner, r: int)
    requires Inv(s, b) && p in s.pages && p in b.kind && b.kind[p].Hand? && o !in s.own
    ensures Inv(Owned(s, o, p, r), b.(kind := b.kind[p := Own(o)]))
  {
    assert PageOk(s, b, p);
    Named(s, b);
    KindKeeps(s, b, Owned(s, o, p, r), Own(o), p);
  }

  // ... and is freed again once nothing depends on it.
  ghost predicate Unneeded(s: State, o: Owner) {
    match o
    case Table(a, pdx) => forall l :: l in s.pte ==> !(l.a == a && Pdx(l.v) == pdx)
    case Chunk(obj, no) => forall e :: e in s.ent ==> !(e.obj == obj && Pdx(e.idx) == no)
  }

  function Disowned(s: State, o: Owner): State
    requires o in s.own
  {
    Freed(s, s.own[o]).(own := s.own - {o})
  }

  lemma DisownKeeps(s: State, b: Books, o: Owner)
    requires Inv(s, b) && o in s.own && Unneeded(s, o)
    ensures Inv(Disowned(s, o), b.(kind := b.kind[s.own[o] := Free]))
  {
    assert OwnOk(s, b, o);
    assert PageOk(s, b, s.own[o]);
    Named(s, b);
    KindKeeps(s, b, Disowned(s, o), Free, s.own[o]);
  }

  // shmem_get_entry gives an entry its page; shmem_remove_entry_pte takes it back.
  function Entered(s: State, e: Ent, p: Page): State
    requires p in s.ref
  {
    s.(ent := s.ent[e := p], ref := s.ref[p := s.ref[p] + 1])
  }

  lemma EntryKeeps(s: State, b: Books, p: Page, e: Ent)
    requires Inv(s, b) && p in s.pages && p in b.kind && b.kind[p].Hand? && e !in s.ent && Chunk(e.obj, Pdx(e.idx)) in s.own
    ensures PageOk(s, b, p) && Inv(Entered(s, e, p), b.(kind := b.kind[p := Shm(e)]))
  {
    assert PageOk(s, b, p);
    Named(s, b);
    KindKeeps(s, b, Entered(s, e, p), Shm(e), p);
  }

  lemma EntryView(s: State, v: View, p: Page, e: Ent)
    requires Refines(s, v) && p in s.ref && p in s.mem && e !in s.ent
    ensures Refines(Entered(s, e, p), v.(shm := v.shm[e := s.mem[p]]))
  {
    var s', v' := Entered(s, e, p), v.(shm := v.shm[e := s.mem[p]]);
    forall k ensures Shows(s', v', k) {
      assert Shows(s, v, k);
    }
    forall f ensures ShowsEnt(s', v', f) {
      assert ShowsEnt(s, v, f);
    }
  }

  function Dropped(s: State, e: Ent): State
    requires e in s.ent && s.ent[e] in s.ref
  {
    var p := s.ent[e];
    s.(ent := s.ent - {e}, ref := s.ref[p := s.ref[p] - 1], free := if s.ref[p] == 1 then s.free + {p} else s.free)
  }

  lemma UsersMapEntry(s: State, b: Books, e: Ent)
    requires Inv(s, b) && e in s.ent
    ensures EntOk(s, b, e) && PageOk(s, b, s.ent[e])
    ensures forall l :: l in b.users[s.ent[e]] ==> l in s.area && s.area[l].back == Shared(e)
  {
    assert EntOk(s, b, e);
    assert PageOk(s, b, s.ent[e]);
    forall l | l in b.users[s.ent[e]] ensures l in s.area && s.area[l].back == Shared(e) {
      assert PteOk(s, b, l);
    }
  }

  // When no area maps the entry any more its page has no users, so dropping the entry frees the page.
  lemma DropKeeps(s: State, b: Books, e: Ent)
    requires Inv(s, b) && e in s.ent && forall l :: l in s.area ==> s.area[l].back != Shared(e)
    ensures s.ent[e] in s.ref && s.ref[s.ent[e]] == 1
    ensures Inv(Dropped(s, e), b.(kind := b.kind[s.ent[e] := Free]))
  {
    var p := s.ent[e];
    assert EntOk(s, b, e);
    assert PageOk(s, b, p);
    UsersMapEntry(s, b, e);
    assert b.users[p] == {};
    Named(s, b);
    KindKeeps(s, b, Dropped(s, e), Free, p);
  }

  lemma DropView(s: State, v: View, e: Ent)
    requires Refines(s, v) && e in s.ent && s.ent[e] in s.ref
    ensures Refines(Dropped(s, e), v.(shm := v.shm - {e}))
  {
    var s', v' := Dropped(s, e), v.(shm := v.shm - {e});
    forall k ensures Shows(s', v', k) {
      assert Shows(s, v, k);
    }
    forall f ensures ShowsEnt(s', v', f) {
      assert ShowsEnt(s, v, f);
    }
  }

  // Only PTEs, areas, entries and contents matter to the view.
  lemma SameView(s: State, s': State, v: View)
    requires Refines(s, v) && s' == s.(free := s'.free, ref := s'.ref, own := s'.own, tlb := s'.tlb, cur := s'.cur)
    ensures Refines(s', v)
  {
    forall k ensures Shows(s', v, k) {
      assert Shows(s, v, k);
    }
    forall e ensures ShowsEnt(s', v, e) {
      assert ShowsEnt(s, v, e);
    }
  }

  // ---------- taking things away, in any order ----------

  // unmap_range removes page table entries; shmem_destroy drops the entries of an object and frees their arrays.
  datatype Step = Unmap(l: Loc) | Drop(e: Ent) | Disown(o: Owner)

  predicate Doable(s: State, x: Step) {
    match x
    case Unmap(l) => l in s.pte && s.pte[l].page in s.ref
    case Drop(e) => e in s.ent && s.ent[e] in s.ref
    case Disown(o) => o in s.own
  }

  // A step with nothing to take away does nothing.
  function After(s: State, x: Step): State {
    if !Doable(s, x) then s
    else match x
         case Unmap(l) => Removed(s, l)
         case Drop(e) => Dropped(s, e)
         case Disown(o) => Disowned(s, o)
  }

  function Applied(s: State, t: seq<Step>): State
    decreases |t|
  {
    if t == [] then s else Applied(After(s, t[0]), t[1..])
  }

  // Every step takes something away.
  ghost predicate Effective(s: State, t: seq<Step>)
    decreases |t|
  {
    t == [] || (Doable(s, t[0]) && Effective(After(s, t[0]), t[1..]))
  }

  // s' is s after the steps.
  ghost predicate Path(s: State, s': State, t: seq<Step>) { Effective(s, t) && s' == Applied(s, t) }

  // Owned pages are named by nothing but their owner.
  ghost predicate OwnersApart(s: State) {
    (forall o, l :: o in s.own && l in s.pte ==> s.own[o] != s.pte[l].page)
    && (forall o, e :: o in s.own && e in s.ent ==> s.own[o] != s.ent[e])
    && (forall o, q :: o in s.own && q in s.own && o != q ==> s.own[o] != s.own[q])
  }

  lemma InvApart(s: State, b: Books)
    requires Inv(s, b)
    ensures OwnersApart(s)
  {
    assert forall o :: o in s.own ==> OwnOk(s, b, o);
    assert forall e :: e in s.ent ==> EntOk(s, b, e);
    assert forall l :: l in s.pte ==> PteOk(s, b, l);
  }

  lemma AfterApart(s: State, x: Step)
    requires OwnersApart(s)
    ensures OwnersApart(After(s, x))
  {
  }

  lemma RemoveTwice(s: State, l: Loc, k: Loc)
    requires l in s.pte && s.pte[l].page in s.ref && k in s.pte && s.pte[k].page in s.ref && l != k
    ensures Removed(Removed(s, l), k) == Removed(Removed(s, k), l)
  {
    var s1, s2 := Removed(Removed(s, l), k), Removed(Removed(s, k), l);
    assert s1.pte == s.pte - {l, k} == s2.pte;
    assert s1.tlb == s2.tlb;
    assert s1.ref == s2.ref;
    assert s1.free == s2.free;
  }

  lemma RemoveDrop(s: State, l: Loc, e: Ent)
    requires l in s.pte && s.pte[l].page in s.ref && e in s.ent && s.ent[e] in s.ref
    ensures Dropped(Removed(s, l), e) == Removed(Dropped(s, e), l)
  {
    var s1, s2 := Dropped(Removed(s, l), e), Removed(Dropped(s, e), l);
    assert s1.ref == s2.ref && s1.free == s2.free;
  }

  lemma DropTwice(s: State, e: Ent, f: Ent)
    requires e in s.ent && s.ent[e] in s.ref && f in s.ent && s.ent[f] in s.ref && e != f
    ensures Dropped(Dropped(s, e), f) == Dropped(Dropped(s, f), e)
  {
    var s1, s2 := Dropped(Dropped(s, e), f), Dropped(Dropped(s, f), e);
    assert s1.ent == s2.ent;
    assert s1.ref == s2.ref && s1.free == s2.free;
  }

  lemma RemoveDisown(s: State, l: Loc, o: Owner)
    requires l in s.pte && s.pte[l].page in s.ref && o in s.own && s.own[o] != s.pte[l].page
    ensures Disowned(Removed(s, l), o) == Removed(Disowned(s, o), l)
  {
    var s1, s2 := Disowned(Removed(s, l), o), Removed(Disowned(s, o), l);
    assert s1.ref == s2.ref && s1.free == s2.free;
  }

  lemma DropDisown(s: State, e: Ent, o: Owner)
    requires e in s.ent && s.ent[e] in s.ref && o in s.own && s.own[o] != s.ent[e]
    ensures Disowned(Dropped(s, e), o) == Dropped(Disowned(s, o), e)
  {
    var s1, s2 := Disowned(Dropped(s, e), o), Dropped(Disowned(s, o), e);
    assert s1.ref == s2.ref && s1.free == s2.free;
  }

  lemma DisownTwice(s: State, o: Owner, q: Owner)
    requires o in s.own && q in s.own && o != q
    ensures Disowned(Disowned(s, o), q) == Disowned(Disowned(s, q), o)
  {
    var s1, s2 := Disowned(Disowned(s, o), q), Disowned(Disowned(s, q), o);
    assert s1.own == s2.own;
    assert s1.ref == s2.ref && s1.free == s2.free;
  }

  // A step neither enables nor disables another.
  lemma StillDoable(s: State, x: Step, y: Step)
    requires OwnersApart(s) && x != y
    ensures Doable(After(s, x), y) <==> Doable(s, y)
  {
  }

  // Any two steps may be exchanged, also when they meet in one page.
  lemma StepsCommute(s: State, x: Step, y: Step)
    requires OwnersApart(s)
    ensures After(After(s, x), y) == After(After(s, y), x)
  {
    if x != y {
      StillDoable(s, x, y);
      StillDoable(s, y, x);
      if Doable(s, x) && Doable(s, y) {
        DoableCommute(s, x, y);
      }
    }
  }

  lemma DoableCommute(s: State, x: Step, y: Step)
    requires OwnersApart(s) && x != y && Doable(s, x) && Doable(s, y) && Doable(After(s, x), y) && Doable(After(s, y), x)
    ensures After(After(s, x), y) == After(After(s, y), x)
  {
    match x
    case Unmap(l) =>
      match y {
        case Unmap(k) => RemoveTwice(s, l, k);
        case Drop(e) => RemoveDrop(s, l, e);
        case Disown(o) => RemoveDisown(s, l, o);
      }
    case Drop(e) =>
      match y {
        case Unmap(l) => RemoveDrop(s, l, e);
        case Drop(f) => DropTwice(s, e, f);
        case Disown(o) => DropDisown(s, e, o);
      }
    case Disown(o) =>
      match y {
        case Unmap(l) => RemoveDisown(s, l, o);
        case Drop(e) => DropDisown(s, e, o);
        case Disown(q) => DisownTwice(s, o, q);
      }
  }

  lemma {:induction false} MoveFront(s: State, t: seq<Step>, k: nat)
    requires OwnersApart(s) && k < |t|
    ensures Applied(s, t) == Applied(After(s, t[k]), t[..k] + t[k + 1..])
    decreases k
  {
    if k == 0 {
      assert t[..0] + t[1..] == t[1..];
    } else {
      var rest, x, y := t[1..], t[0], t[k];
      AfterApart(s, x);
      MoveFront(After(s, x), rest, k - 1);
      StepsCommute(s, x, y);
      var u := rest[..k - 1] + rest[k..];
      assert t[..k] + t[k + 1..] == [x] + u;
      assert ([x] + u)[1..] == u;
    }
  }

  // The result depends only on which steps are taken, not on their order.
  lemma {:induction false} AnyOrder(s: State, t: seq<Step>, t': seq<Step>)
    requires OwnersApart(s) && multiset(t) == multiset(t')
    ensures Applied(s, t) == Applied(s, t')
    decreases |t|
  {
    if t == [] {
      assert |t'| == |multiset(t')| == 0;
    } else {
      var k := Somewhere(t, t');
      MoveFront(s, t', k);
      AfterApart(s, t[0]);
      AnyOrder(After(s, t[0]), t[1..], t'[..k] + t'[k + 1..]);
    }
  }

  lemma Somewhere(t: seq<Step>, t': seq<Step>) returns (k: nat)
    requires t != [] && multiset(t) == multiset(t')
    ensures k < |t'| && t'[k] == t[0] && multiset(t[1..]) == multiset(t'[..k] + t'[k + 1..])
  {
    assert t[0] in multiset(t');
    k :| 0 <= k < |t'| && t'[k] == t[0];
    assert t == [t[0]] + t[1..];
    assert t' == t'[..k] + [t'[k]] + t'[k + 1..];
    assert multiset(t[1..]) == multiset(t) - multiset{t[0]};
    assert multiset(t'[..k] + t'[k + 1..]) == multiset(t') - multiset{t[0]};
  }

  lemma {:induction false} PathMore(s: State, s1: State, t: seq<Step>, x: Step)
    requires Path(s, s1, t) && Doable(s1, x)
    ensures Path(s, After(s1, x), t + [x])
    decreases |t|
  {
    if t == [] {
      assert [] + [x] == [x] && [x][1..] == [];
    } else {
      assert (t + [x])[1..] == t[1..] + [x];
      PathMore(After(s, t[0]), s1, t[1..], x);
    }
  }

  lemma {:induction false} PathConcat(s: State, s1: State, s2: State, t: seq<Step>, u: seq<Step>)
    requires Path(s, s1, t) && Path(s1, s2, u)
    ensures Path(s, s2, t + u)
    decreases |t|
  {
    if t == [] {
      assert [] + u == u;
    } else {
      assert (t + u)[1..] == t[1..] + u;
      PathConcat(After(s, t[0]), s1, s2, t[1..], u);
    }
  }

  lemma AfterArea(s: State, x: Step, area: map<Loc, Rights>)
    ensures After(s.(area := area), x) == After(s, x).(area := area) && (Doable(s.(area := area), x) <==> Doable(s, x))
  {
    if Doable(s, x) {
      match x
      case Unmap(l) => assert Removed(s.(area := area), l) == Removed(s, l).(area := area);
      case Drop(e) => assert Dropped(s.(area := area), e) == Dropped(s, e).(area := area);
      case Disown(o) => assert Disowned(s.(area := area), o) == Disowned(s, o).(area := area);
    }
  }

  // What the areas say plays no part in it.
  lemma {:induction false} PathArea(s: State, s': State, t: seq<Step>, area: map<Loc, Rights>)
    requires Path(s, s', t)
    ensures Path(s.(area := area), s'.(area := area), t)
    decreases |t|
  {
    if t != [] {
      AfterArea(s, t[0], area);
      PathArea(After(s, t[0]), s', t[1..], area);
    }
  }

  // What a step takes away
  lemma AfterTakes(s: State, x: Step)
    requires Doable(s, x)
    ensures forall l {:trigger Unmap(l)} :: l in After(s, x).pte <==> l in s.pte && x != Unmap(l)
    ensures forall e {:trigger Drop(e)} :: e in After(s, x).ent <==> e in s.ent && x != Drop(e)
    ensures forall o {:trigger Disown(o)} :: o in After(s, x).own <==> o in s.own && x != Disown(o)
  {
    match x
    case Unmap(l) => assert After(s, x) == Removed(s, l);
    case Drop(e) => assert After(s, x) == Dropped(s, e);
    case Disown(o) => assert After(s, x) == Disowned(s, o);
  }

  ghost predicate Takes(s: State, s': State, x: Step, taken: bool) {
    match x
    case Unmap(l) => (l in s'.pte ==> l in s.pte) && (taken <==> l in s.pte && l !in s'.pte)
    case Drop(e) => (e in s'.ent ==> e in s.ent) && (taken <==> e in s.ent && e !in s'.ent)
    case Disown(o) => (o in s'.own ==> o in s.own) && (taken <==> o in s.own && o !in s'.own)
  }

  // The steps of a path are exactly what its end lacks.
  lemma {:induction false} PathTakes(s: State, s': State, t: seq<Step>, x: Step)
    requires Path(s, s', t)
    ensures Takes(s, s', x, x in t)
    decreases |t|
  {
    if t != [] {
      var s1 := After(s, t[0]);
      PathTakes(s1, s', t[1..], x);
      AfterTakes(s, t[0]);
      assert t == [t[0]] + t[1..];
    }
  }

  // ---------- memory contents ----------

  // Contents, the TLB's coverage and the loaded page directory do not matter to the invariant.
  lemma MemKeeps(s: State, s': State, b: Books)
    requires Inv(s, b) && s' == s.(mem := s'.mem, tlb := s'.tlb, cur := s'.cur)
    requires (forall p :: p in s.mem ==> p in s'.mem) && TlbOk(s')
    ensures Inv(s', b)
  {
    forall p | p in s.pages ensures PageOk(s', b, p) {
      assert PageOk(s, b, p);
    }
    forall l | l in s'.pte ensures PteOk(s', b, l) {
      assert PteOk(s, b, l);
    }
    forall o | o in s'.own ensures OwnOk(s', b, o) {
      assert OwnOk(s, b, o);
    }
    forall e | e in s'.ent ensures EntOk(s', b, e) {
      assert EntOk(s, b, e);
    }
  }

  // Writing through an address changes that address alone, or that page of the shared memory object alone.
  ghost function Written(v: View, l: Loc, d: Data): View
    requires l in v.area
  {
    match v.area[l].back
    case Private => v.(priv := v.priv[l := d])
    case Shared(e) => v.(shm := v.shm[e := d])
  }

  // The invariant behind copy-on-write: a writable private page has no other user.
  lemma WriteView(s: State, b: Books, v: View, l: Loc, d: Data)
    requires Inv(s, b) && Refines(s, v) && l in s.pte && s.pte[l].w
    ensures l in s.area && Refines(s.(mem := s.mem[s.pte[l].page := d]), Written(v, l, d))
  {
    var p := s.pte[l].page;
    var s' := s.(mem := s.mem[p := d]);
    assert PteOk(s, b, l);
    assert PageOk(s, b, p);
    var v' := Written(v, l, d);
    forall k ensures Shows(s', v', k) {
      assert Shows(s, v, k);
      if k in s.pte {
        assert PteOk(s, b, k);
      }
    }
    forall e ensures ShowsEnt(s', v', e) {
      assert ShowsEnt(s, v, e);
      if e in s.ent {
        assert EntOk(s, b, e);
      }
    }
  }

  // The contents of a page in hand are nobody's view.
  lemma HandView(s: State, b: Books, v: View, p: Page, d: Data)
    requires Inv(s, b) && Refines(s, v) && p in s.pages && p in b.kind && b.kind[p].Hand?
    ensures Refines(s.(mem := s.mem[p := d]), v)
  {
    var s' := s.(mem := s.mem[p := d]);
    forall k ensures Shows(s', v, k) {
      assert Shows(s, v, k);
      if k in s.pte {
        assert PteOk(s, b, k);
      }
    }
    forall e ensures ShowsEnt(s', v, e) {
      assert ShowsEnt(s, v, e);
      if e in s.ent {
        assert EntOk(s, b, e);
      }
    }
  }

  // ---------- areas ----------

  // Areas may be added where there are none, and taken away where nothing is present.
  lemma AreaKeeps(s: State, b: Books, v: View, area: map<Loc, Rights>)
    requires Inv(s, b) && Refines(s, v)
    requires forall l :: l in s.pte && l in s.area ==> l in area && area[l] == s.area[l]
    ensures Inv(s.(area := area), b) && Refines(s.(area := area), v.(area := area))
  {
    var s', v' := s.(area := area), v.(area := area);
    forall p | p in s.pages ensures PageOk(s', b, p) {
      assert PageOk(s, b, p);
    }
    forall l | l in s'.pte ensures PteOk(s', b, l) {
      assert PteOk(s, b, l);
    }
    forall o | o in s'.own ensures OwnOk(s', b, o) {
      assert OwnOk(s, b, o);
    }
    forall e | e in s'.ent ensures EntOk(s', b, e) {
      assert EntOk(s, b, e);
    }
    forall l ensures Shows(s', v', l) {
      assert Shows(s, v, l);
      if l in s.pte {
        assert PteOk(s, b, l);
      }
    }
    forall e ensures ShowsEnt(s', v', e) {
      assert ShowsEnt(s, v, e);
    }
  }

  // ---------- what the invariant says of the counts ----------

  ghost function PtesNaming(s: State, p: Page): set<Loc> { set l | l in s.pte && s.pte[l].page == p }

  ghost function EntriesNaming(s: State, p: Page): set<Ent> { set e | e in s.ent && s.ent[e] == p }

  // A page that is not owned outright has as its count the number of user PTEs and shared memory entries naming it;
  // with nothing in the kernel's hand it is free exactly when that number is zero.
  lemma CountIsUse(s: State, b: Books, p: Page)
    requires Inv(s, b) && p in s.pages && (forall o :: o in s.own ==> s.own[o] != p)
    ensures p in s.ref && s.ref[p] == |PtesNaming(s, p)| + |EntriesNaming(s, p)|
    ensures p in b.kind && (!b.kind[p].Hand? ==> (p in s.free <==> s.ref[p] == 0))
    ensures forall l :: l in s.pte && s.pte[l].page == p ==> p !in s.free
  {
    assert PageOk(s, b, p);
    forall l | l in s.pte && s.pte[l].page == p ensures l in b.users[p] {
      assert PteOk(s, b, l);
    }
    assert PtesNaming(s, p) == b.users[p];
    forall e | e in s.ent && s.ent[e] == p ensures b.kind[p] == Shm(e) {
      assert EntOk(s, b, e);
    }
    assert EntriesNaming(s, p) == if b.kind[p].Shm? then {b.kind[p].e} else {};
  }

  // Nothing mapped, owned, entered or in hand: every page is free.
  lemma NothingLeft(s: State, b: Books)
    requires Inv(s, b) && s.pte == map[] && s.own == map[] && s.ent == map[]
    requires forall p :: p in s.pages && p in b.kind ==> !b.kind[p].Hand?
    ensures s.free == s.pages
  {
    forall p | p in s.pages ensures p in s.free {
      assert PageOk(s, b, p);
      assert b.users[p] == {};
    }
  }
}
