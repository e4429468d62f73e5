/**
 mm_struct of kern/mm/vmm.c: a sorted list of areas, a red-black tree of the same areas once there are enough of them, and
 a one-entry cache.
 */
module MemoryMaps {
  import opened Options
  import opened Lists
  import opened Units
  import opened AreaLists
  import opened RbTree
  import Pages = PageState
  import Denoted = AreaPages

  const RB_MIN_MAP_COUNT: nat := 32

  datatype Status = Done | Invalid | NoMemory

  type Areas = map<Ref, Area>

  predicate Live(area: Areas, list: seq<Ref>) { forall i :: 0 <= i < |list| ==> list[i] in area }

  function Deref(area: Areas, list: seq<Ref>): (s: seq<Area>)
    requires Live(area, list)
    ensures |s| == |list| && forall i :: 0 <= i < |s| ==> s[i] == area[list[i]]
  {
    seq(|list|, i requires 0 <= i < |list| => area[list[i]])
  }

  ghost predicate InOrderOf(area: Areas, list: seq<Ref>) { Live(area, list) && Disjoint(Deref(area, list)) }

  lemma NoneTwice(area: Areas, list: seq<Ref>)
    requires InOrderOf(area, list)
    ensures NoDup(list)
  {
    var s := Deref(area, list);
    forall i, j | 0 <= i < j < |list| ensures list[i] != list[j] {
      assert s[i].end <= s[j].start && s[j].start < s[j].end;
    }
  }

  // ---------- lists ----------

  lemma WithInOrder(area: Areas, list: seq<Ref>, r: Ref, p: nat)
    requires InOrderOf(area, list) && r in area && area[r].start < area[r].end && FitsAt(Deref(area, list), area[r], p)
    ensures InOrderOf(area, With(list, p, r))
    ensures Deref(area, With(list, p, r)) == With(Deref(area, list), p, area[r])
  {
    WithAt(list, p, r);
    WithAt(Deref(area, list), p, area[r]);
    WithDisjoint(Deref(area, list), area[r], p);
    assert Deref(area, With(list, p, r)) == With(Deref(area, list), p, area[r]);
  }

  lemma WithoutAt<T>(s: seq<T>, p: nat)
    requires p < |s|
    ensures var t := s[..p] + s[p + 1..]; |t| == |s| - 1 && forall j :: 0 <= j < |t| ==> t[j] == if j < p then s[j] else s[j + 1]
  {
  }

  lemma WithoutInOrder(area: Areas, list: seq<Ref>, p: nat)
    requires InOrderOf(area, list) && p < |list|
    ensures InOrderOf(area, Without(list, p))
    ensures Deref(area, Without(list, p)) == Deref(area, list)[..p] + Deref(area, list)[p + 1..]
  {
    var s, t := Deref(area, list), Deref(area, list)[..p] + Deref(area, list)[p + 1..];
    WithoutAt(s, p);
    WithoutAt(list, p);
    assert Without(list, p) == list[..p] + list[p + 1..];
    assert Live(area, Without(list, p));
    assert Deref(area, Without(list, p)) == t;
    WithoutDisjoint(s, p);
  }

  // A list element's successor: list_add_after
  function AddAfter(list: seq<Ref>, prev: Option<Ref>, r: Ref): seq<Ref> {
    if prev.None? then [r] + list
    else if list == [] then [r]
    else if list[0] == prev.value then [list[0], r] + list[1..]
    else [list[0]] + AddAfter(list[1..], prev, r)
  }

  lemma {:induction false} AddAfterAt(list: seq<Ref>, p: nat, r: Ref)
    requires NoDup(list) && 0 < p <= |list|
    ensures AddAfter(list, Some(list[p - 1]), r) == With(list, p, r)
    decreases |list|
  {
    if p > 1 {
      assert list[1..][p - 2] == list[p - 1];
      assert NoDup(list[1..]);
      AddAfterAt(list[1..], p - 1, r);
    }
  }

  lemma {:induction false} DelAt(list: seq<Ref>, p: nat)
    requires NoDup(list) && p < |list|
    ensures Del(list, list[p]) == Without(list, p)
    decreases |list|
  {
    if p > 0 {
      TailNoDup(list, p);
      DelAt(list[1..], p - 1);
      WithoutTail(list, p);
    }
  }

  lemma TailNoDup(list: seq<Ref>, p: nat)
    requires NoDup(list) && 0 < p < |list|
    ensures NoDup(list[1..]) && list[1..][p - 1] == list[p] && list[0] != list[p]
  {
  }

  lemma WithoutTail(list: seq<Ref>, p: nat)
    requires 0 < p < |list|
    ensures Without(list, p) == [list[0]] + Without(list[1..], p - 1)
  {
  }

  function Starts(area: Areas): map<Ref, int> { map r | r in area :: area[r].start }

  lemma SortedByStart(area: Areas, list: seq<Ref>)
    requires InOrderOf(area, list)
    ensures Sorted(list, Starts(area))
  {
    var s := Deref(area, list);
    forall i, j | 0 <= i < j < |list| ensures Starts(area)[list[i]] <= Starts(area)[list[j]] {
      assert s[i].end <= s[j].start && s[i].start < s[i].end;
    }
  }

  lemma FitsByStable(area: Areas, list: seq<Ref>, list': seq<Ref>, r: Ref, p: nat)
    requires InOrderOf(area, list) && r in area && area[r].start < area[r].end && Clear(Deref(area, list), area[r])
    requires StablyInserted(list, list', r, p, Starts(area))
    ensures FitsAt(Deref(area, list), area[r], p) && list' == With(list, p, r)
  {
    var s := Deref(area, list);
    forall j | 0 <= j < |s| ensures if j < p then s[j].start <= area[r].start else s[j].start > area[r].start {
      assert Starts(area)[list[j]] == s[j].start;
    }
    FitsByStart(s, area[r], p);
  }

  // An area that overlaps none of the list is not in it.
  lemma ClearIsNew(area: Areas, list: seq<Ref>, r: Ref)
    requires Live(area, list) && r in area && area[r].start < area[r].end && Clear(Deref(area, list), area[r])
    ensures r !in list
  {
    assert forall i :: 0 <= i < |list| ==> !Clash(Deref(area, list)[i], area[r]);
  }

  // The search has narrowed to t: what is left of it ends too early, and r is the first area to its right.
  ghost predicate Closing(s: seq<Area>, list: seq<Ref>, ctx: Ctx, t: Tree, addr: nat, r: Option<Ref>) {
    var lo, hi := |Before(ctx)|, |list| - |After(ctx)|;
    |s| == |list| && Total(ctx, t) == list
    && (lo > 0 ==> s[lo - 1].end <= addr)
    && (if hi < |list| then s[hi].end > addr && r == Some(list[hi]) else r == None)
  }

  lemma ClosingStep(s: seq<Area>, list: seq<Ref>, ctx: Ctx, t: Tree, addr: nat, r: Option<Ref>) returns (k: nat)
    requires t.Fork? && Closing(s, list, ctx, t, addr, r)
    ensures k < |list| && list[k] == t.node
    ensures var d := if s[k].end > addr then Left else Right;
            Closing(s, list, Step(d, t.red, t.node, Kid(t, d.Other()), ctx), Kid(t, d), addr, if d.Left? then Some(t.node) else r)
  {
    RankSplits(ctx, t);
    k := Rank(ctx, t);
  }

  lemma ClosingEnd(s: seq<Area>, list: seq<Ref>, ctx: Ctx, addr: nat, r: Option<Ref>) returns (k: nat)
    requires Disjoint(s) && Closing(s, list, ctx, Leaf, addr, r)
    ensures IsFirst(s, addr, k) && r == if k < |list| then Some(list[k]) else None
  {
    k := |Before(ctx)|;
    FirstByNeighbours(s, addr, k);
  }

  // The area mm_map makes: whole pages, never shared
  function NewArea(addr: Address, len: Address, flags: Flags): (x: Area) {
    Area(RoundDown(addr), RoundUp(Add32(addr, len)), flags.(share := false), None, 0)
  }

  lemma NewAreaCovers(addr: Address, len: Address, flags: Flags)
    ensures var x := NewArea(addr, len, flags);
            (UserAccess(x.start, x.end) <==> Accepts(addr, len))
            && (UserAccess(x.start, x.end) ==> WellFormed(x) && forall a :: Covers(x, a) <==> Touches(addr, len, a))
  {
    RoundedRange(addr, len);
    Rounded(addr);
    Rounded(Add32(addr, len));
  }

  lemma Unlinked(area: Areas, list: seq<Ref>, r: Ref, x: Area)
    requires Live(area, list) && r !in list
    ensures Live(area[r := x], list) && Deref(area[r := x], list) == Deref(area, list)
  {
  }

  lemma Forgotten(area: Areas, list: seq<Ref>, r: Ref)
    requires Live(area, list) && r !in list
    ensures Live(area - {r}, list) && Deref(area - {r}, list) == Deref(area, list)
  {
  }

  lemma SoundWith(s: seq<Area>, x: Area, p: nat, pte: map<nat, nat>, refs: map<nat, nat>, elsewhere: map<nat, nat>)
    requires p <= |s| && WellFormed(x) && !x.flags.share
    requires AllWellFormed(s) && PtesMapped(pte, s) && Counted(refs, elsewhere, s)
    ensures AllWellFormed(With(s, p, x)) && PtesMapped(pte, With(s, p, x)) && Counted(refs, elsewhere, With(s, p, x))
  {
    WithAt(s, p, x);
    forall a | a in pte ensures Mapped(With(s, p, x), a) {
      MappedWith(s, p, x, a);
    }
    forall o: nat ensures Naming(With(s, p, x), o) == Naming(s, o) {
      NamingWith(s, p, x, o);
    }
  }

  lemma NoAreas(refs: map<nat, nat>)
    requires forall o :: o in refs ==> refs[o] > 0
    ensures AllWellFormed([]) && PtesMapped(map[], []) && Counted(refs, refs, [])
  {
    forall o: nat ensures RefOf(refs, o) == RefOf(refs, o) + Naming([], o) && (o in refs ==> RefOf(refs, o) > 0) {
    }
  }

  // kmalloc where there is room: an object that is none of those in use
  method Kmalloc(used: set<Ref>) returns (r: Ref)
    ensures r !in used
  {
    ghost var n := Unused(used);
    r :| r !in used;
  }

  lemma {:induction false} Unused(used: set<Ref>) returns (n: Ref)
    ensures n !in used && forall x :: x in used ==> x < n
  {
    if used == {} {
      n := 0;
    } else {
      var x :| x in used;
      var m := Unused(used - {x});
      n := if m > x then m else x + 1;
      assert forall y :: y in used ==> y == x || y in used - {x};
    }
  }

  class Mm {
    var list: seq<Ref>
    var tree: RbTree?
    var cache: Option<Ref>
    var mapCount: nat
    // the vma_structs, linked or not
    var area: Areas
    // the page table entries, by page address
    var pte: map<nat, nat>
    // shmem_ref of the shared memory objects, and how much of it other address spaces hold
    var refs: map<nat, nat>
    ghost var elsewhere: map<nat, nat>

    ghost predicate Indexed()
      reads this, tree
    {
      tree != null ==> tree.Valid() && tree.Contents() == list && tree.nil !in area && tree.root !in area
    }

    ghost predicate Linked()
      reads this, tree
    {
      InOrderOf(area, list) && mapCount == |list| && (cache.Some? ==> cache.value in list) && Indexed()
    }

    ghost function View(): seq<Area>
      requires Live(area, list)
      reads this
    {
      Deref(area, list)
    }

    ghost function Now(): Shot
      requires Live(area, list)
      reads this
    {
      Shot(View(), area, list, pte, refs)
    }

    ghost predicate Sound()
      requires Live(area, list)
      reads this
    {
      AllWellFormed(View()) && PtesMapped(pte, View()) && Counted(refs, elsewhere, View())
    }

    ghost predicate Valid()
      reads this, tree
    {
      Linked() && Sound()
    }

    // mm_create
    constructor (refs: map<nat, nat>)
      requires forall o :: o in refs ==> refs[o] > 0
      ensures Valid() && list == [] && tree == null && elsewhere == refs
    {
      list, tree, cache, mapCount, area, pte := [], null, None, 0, map[], map[];
      this.refs, elsewhere := refs, refs;
      new;
      NoAreas(refs);
      assert View() == [];
    }

    // find_vma_rb
    method FindVmaRb(addr: nat) returns (r: Option<Ref>, ghost k: nat)
      requires Linked() && tree != null
      ensures IsFirst(View(), addr, k) && r == if k < |list| then Some(list[k]) else None
    {
      var node := tree.mem[tree.root].left;
      r := None;
      ghost var ctx, t, s := Whole, tree.tree, View();
      assert Total(ctx, t) == list;
      while node != tree.nil
        invariant Walking(node, ctx, t, addr, r)
        decreases t
      {
        k := WalkDown(node, ctx, t, addr, r);
        ghost var d := if area[node].end > addr then Left else Right;
        ctx, t := Step(d, t.red, t.node, Kid(t, d.Other()), ctx), Kid(t, d);
        if area[node].end > addr {
          r := Some(node);
          if area[node].start <= addr {
            FirstIfCovers(s, addr, k);
            return;
          }
          node := tree.mem[node].left;
        } else {
          node := tree.mem[node].right;
        }
      }
      k := ClosingEnd(s, list, ctx, addr, r);
    }

    // The walk down the tree has come to node.
    ghost predicate Walking(node: Ref, ctx: Ctx, t: Tree, addr: nat, r: Option<Ref>)
      reads this, tree
    {
      tree != null && Live(area, list) && Shape(tree.mem, ctx, t, tree.nil, tree.root) && node == Top(t, tree.nil)
      && Closing(View(), list, ctx, t, addr, r)
    }

    lemma WalkDown(node: Ref, ctx: Ctx, t: Tree, addr: nat, r: Option<Ref>) returns (k: nat)
      requires Linked() && Walking(node, ctx, t, addr, r) && node != tree.nil
      ensures t.Fork? && node in tree.mem && k < |list| && list[k] == node && node in area
      ensures var d := if area[node].end > addr then Left else Right;
              Walking(tree.mem[node].Child(d), Step(d, t.red, t.node, Kid(t, d.Other()), ctx), Kid(t, d), addr,
                      if d.Left? then Some(node) else r)
    {
      k := ClosingStep(View(), list, ctx, t, addr, r);
      ShapeDown(tree.mem, ctx, t, tree.nil, tree.root, if area[node].end > addr then Left else Right);
    }

    // find_vma: the same area, whether the cache, the tree or the list gives it
    method FindVma(addr: nat) returns (r: Option<Ref>, ghost k: nat)
      requires Linked()
      modifies this`cache
      ensures Linked() && IsFirst(View(), addr, k) && r == if k < |list| then Some(list[k]) else None
      ensures cache == if r.Some? then r else old(cache)
    {
      r := cache;
      if r.Some? && area[r.value].start <= addr && area[r.value].end > addr {
        k :| 0 <= k < |list| && list[k] == r.value;
        FirstIfCovers(View(), addr, k);
      } else if tree != null {
        r, k := FindVmaRb(addr);
      } else {
        r, k := FindVmaList(addr);
      }
      if r.Some? {
        cache := r;
      }
    }

    // The list scan of find_vma
    method FindVmaList(addr: nat) returns (r: Option<Ref>, ghost k: nat)
      requires Linked()
      ensures IsFirst(View(), addr, k) && r == if k < |list| then Some(list[k]) else None
    {
      var i := FindFirst(Deref(area, list), addr);
      k := i;
      r := if i < |list| then Some(list[i]) else None;
    }

    // The scan of insert_vma_struct: the last area that starts no later than the new one
    method LastNotAfter(start: nat) returns (prev: Option<Ref>, ghost p: nat)
      requires Linked()
      ensures p <= |list| && prev == if p > 0 then Some(list[p - 1]) else None
      ensures forall j :: 0 <= j < p ==> View()[j].start <= start
      ensures forall j :: p <= j < |list| ==> View()[j].start > start
    {
      var i: nat := 0;
      prev := None;
      while i < |list| && area[list[i]].start <= start
        invariant i <= |list| && prev == if i > 0 then Some(list[i - 1]) else None
        invariant forall j :: 0 <= j < i ==> View()[j].start <= start
      {
        prev := Some(list[i]);
        i := i + 1;
      }
      p := i;
      forall j | p < j < |list| ensures View()[j].start > start {
        assert View()[p].start < View()[p].end <= View()[j].start;
      }
    }

    // insert_vma_rb: the area before the new one, and the tree with the new one in its place
    method InsertVmaRb(vma: Ref) returns (prev: Option<Ref>, ghost p: nat)
      requires Linked() && tree != null
      requires vma in area && area[vma].start < area[vma].end && Clear(View(), area[vma])
      modifies tree
      ensures tree == old(tree) && tree.Valid() && FitsAt(View(), area[vma], p) && tree.Contents() == With(list, p, vma)
      ensures prev == if p > 0 then Some(list[p - 1]) else None
    {
      SortedByStart(area, list);
      ClearIsNew(area, list, vma);
      tree.Adopt(vma);
      p := tree.Insert(vma, Starts(area));
      FitsByStable(area, list, tree.Contents(), vma, p);
      WithInOrder(area, list, vma, p);
      WithAt(list, p, vma);
      NoneTwice(area, tree.Contents());
      ghost var i;
      var node;
      node, i := tree.Prev(vma);
      assert i == p;
      NilNotInside(tree.mem, tree.tree, tree.nil, tree.root);
      prev := if node != tree.nil then Some(node) else None;
    }

    // rb_tree_create, where kmalloc has room for it, and the insertion of every area
    method BuildTree()
      requires InOrderOf(area, list) && tree == null
      modifies this`tree
      ensures Indexed() && tree != null && fresh(tree)
    {
      var nil := Kmalloc(area.Keys);
      var root := Kmalloc(area.Keys + {nil});
      var t := new RbTree(map[], nil, root);
      SortedByStart(area, list);
      NoneTwice(area, list);
      var i: nat := 0;
      while i < |list|
        invariant i <= |list| && fresh(t) && t.Valid() && t.Contents() == list[..i]
        invariant tree == null && InOrderOf(area, list)
      {
        NextIsNew(area, list, i);
        t.Adopt(list[i]);
        ghost var p := t.Insert(list[i], Starts(area));
        AppendStable(area, list, i, p, t.Contents());
        i := i + 1;
      }
      tree := t;
    }

    // The first half of insert_vma_struct: the place in the list, and the tree
    method FindPlace(vma: Ref) returns (prev: Option<Ref>, ghost p: nat)
      requires Linked() && vma in area && area[vma].start < area[vma].end && Clear(View(), area[vma])
      modifies tree
      ensures tree == old(tree) && FitsAt(View(), area[vma], p) && prev == if p > 0 then Some(list[p - 1]) else None
      ensures tree != null ==> tree.Valid() && tree.Contents() == With(list, p, vma)
    {
      if tree != null {
        prev, p := InsertVmaRb(vma);
      } else {
        prev, p := LastNotAfter(area[vma].start);
        FitsByStart(View(), area[vma], p);
      }
      // the overlap checks
      assert p > 0 ==> area[list[p - 1]].end <= area[vma].start;
      assert p < |list| ==> area[vma].end <= area[list[p]].start;
    }

    // insert_vma_struct; index says whether kmalloc has room for rb_tree_create.
    method InsertVma(vma: Ref, index: bool) returns (ghost p: nat)
      requires Linked() && vma in area && area[vma].start < area[vma].end && Clear(View(), area[vma])
      modifies this`list, this`mapCount, this`tree, tree
      ensures Linked() && FitsAt(old(View()), area[vma], p)
      ensures list == With(old(list), p, vma) && View() == With(old(View()), p, area[vma])
      ensures if old(tree) == null && index && |list| >= RB_MIN_MAP_COUNT then tree != null && fresh(tree) else tree == old(tree)
    {
      var prev;
      prev, p := FindPlace(vma);
      Joined(area, list, vma, p, cache);
      list := AddAfter(list, prev, vma);
      mapCount := mapCount + 1;
      if tree == null && mapCount >= RB_MIN_MAP_COUNT && index {
        BuildTree();
      }
    }

    // remove_vma_struct
    method RemoveVma(vma: Ref, ghost p: nat)
      requires Linked() && p < |list| && list[p] == vma
      modifies this`list, this`mapCount, this`cache, tree
      ensures tree == old(tree) && Linked() && list == Without(old(list), p) && View() == old(View())[..p] + old(View())[p + 1..]
      ensures cache == if old(cache) == Some(vma) then None else old(cache)
    {
      NoneTwice(area, list);
      WithoutInOrder(area, list, p);
      DelAt(list, p);
      if tree != null {
        ghost var q := tree.Delete(vma);
      }
      CacheStays(list, p, cache);
      list := Del(list, vma);
      if cache == Some(vma) {
        cache := None;
      }
      mapCount := mapCount - 1;
    }

    // vma_resize
    method VmaResize(vma: Ref, start: nat, end: nat)
      requires vma in area && start % PGSIZE == 0 && end % PGSIZE == 0
      requires area[vma].start <= start < end <= area[vma].end
      modifies this`area
      ensures area == old(area)[vma := Resized(old(area)[vma], start, end)]
    {
      var x := area[vma];
      area := area[vma := Resized(x, start, end)];
    }

    // vma_create; room says whether kmalloc has room for it.
    method VmaCreate(x: Area, room: bool) returns (r: Option<Ref>)
      requires Linked()
      modifies this`area
      ensures Linked() && View() == old(View())
      ensures (r.Some? <==> room) && (r.None? ==> area == old(area))
      ensures r.Some? ==> r.value !in old(area) && area == old(area)[r.value := x]
    {
      if !room {
        return None;
      }
      var vma := Kmalloc(if tree == null then area.Keys else area.Keys + {tree.nil, tree.root});
      Unlinked(area, list, vma, x);
      area := area[vma := x];
      return Some(vma);
    }

    method UnmapRange(lo: nat, hi: nat)
      modifies this`pte
      ensures pte == Erased(old(pte), lo, hi)
    {
      pte := Erased(pte, lo, hi);
    }

    // vma_destroy
    method VmaDestroy(vma: Ref)
      requires Linked() && vma in area && vma !in list && HasObject(area[vma])
      modifies this`refs, this`area
      ensures Linked() && View() == old(View()) && area == old(area) - {vma} && refs == Released(old(refs), old(area)[vma])
    {
      refs := Released(refs, area[vma]);
      Forgotten(area, list, vma);
      area := area - {vma};
    }

    // One turn of mm_unmap's second loop
    method TrimOne(vma: Ref, lo: nat, hi: nat)
      requires Linked() && vma in area && vma !in list && lo < hi && lo % PGSIZE == 0 && hi % PGSIZE == 0
      requires WellFormed(area[vma]) && lo < area[vma].end && area[vma].start < hi
      requires area[vma].start >= lo || area[vma].end <= hi
      requires lo <= area[vma].start && area[vma].end <= hi ==> HasObject(area[vma])
      requires forall i :: 0 <= i < |Rest(area[vma], lo, hi)| ==> Clear(View(), Rest(area[vma], lo, hi)[i])
      modifies this, tree
      ensures Linked() && (tree == old(tree) || fresh(tree)) && elsewhere == old(elsewhere)
      ensures TrimmedOne(old(Now()), Now(), vma, lo, hi)
    {
      var x := area[vma];
      var from, to := x.start, x.end;
      ghost var rest := Rest(x, lo, hi);
      assert rest != [] ==> Clear(View(), rest[0]);
      if x.start < lo {
        from := lo;
        assert rest == [Resized(x, x.start, lo)];
        TrimTo(vma, x.start, lo);
      } else if hi < x.end {
        to := hi;
        assert rest == [Resized(x, hi, x.end)];
        TrimTo(vma, hi, x.end);
      } else {
        VmaDestroy(vma);
      }
      UnmapRange(from, to);
    }

    // vma_resize of an unlinked area, and insert_vma_struct
    method TrimTo(vma: Ref, start: nat, end: nat)
      requires Linked() && vma in area && vma !in list && start % PGSIZE == 0 && end % PGSIZE == 0
      requires area[vma].start <= start < end <= area[vma].end
      requires Clear(View(), Resized(area[vma], start, end))
      modifies this`area, this`list, this`mapCount, this`tree, tree
      ensures Linked() && (tree == old(tree) || fresh(tree))
      ensures area == old(area)[vma := Resized(old(area)[vma], start, end)]
      ensures Rejoined(old(View()), View(), [Resized(old(area)[vma], start, end)])
      ensures forall r :: r in list ==> r in old(list) || r == vma
    {
      Unlinked(area, list, vma, Resized(area[vma], start, end));
      VmaResize(vma, start, end);
      ghost var piece := [area[vma]];
      var index: bool := *;
      ghost var p := InsertVma(vma, index);
      assert FitsAt(old(View()), piece[0], p);
    }

    // Areas k to m have left the list and are held in reverse order; next is the area after them.
    ghost predicate Taking(held: seq<Ref>, next: Option<Ref>, was: seq<Ref>, a: Areas, k: nat, m: nat)
      reads this, tree
    {
      Linked() && area == a && Live(a, was) && k <= m <= |was| && Removing(list, held, was, k, m)
      && next == if m < |was| then Some(was[m]) else None
    }

    // mm_unmap's first loop: the areas that overlap the range leave the list
    method RemoveTouched(first: Ref, hi: nat, ghost k: nat, ghost a: Areas, ghost was: seq<Ref>)
      returns (held: seq<Ref>, ghost next: Option<Ref>, ghost m: nat)
      requires Taking([], Some(first), was, a, k, k) && a[first].start < hi
      modifies this`list, this`mapCount, this`cache, tree
      ensures tree == old(tree) && Taking(held, next, was, a, k, m) && k < m && a[was[m - 1]].start < hi
      ensures m < |was| ==> a[was[m]].start >= hi
    {
      held, next, m := [], Some(first), k;
      var vma, more := first, true;
      while more
        invariant tree == old(tree) && Taking(held, next, was, a, k, m)
        invariant more ==> next == Some(vma)
        invariant more <==> m < |was| && a[was[m]].start < hi
        invariant m > k ==> a[was[m - 1]].start < hi
        invariant m == k ==> more
        decreases |was| - m
      {
        var le;
        le, held := RemoveNext(vma, held, was, a, k, m);
        next, m := le, m + 1;
        more := false;
        if le.Some? {
          vma := le.value;
          more := area[vma].start < hi;
        }
      }
    }

    method RemoveNext(vma: Ref, held0: seq<Ref>, ghost was: seq<Ref>, ghost a: Areas, ghost k: nat, ghost m: nat)
      returns (le: Option<Ref>, held: seq<Ref>)
      requires Taking(held0, Some(vma), was, a, k, m)
      modifies this`list, this`mapCount, this`cache, tree
      ensures tree == old(tree) && Taking(held, le, was, a, k, m + 1)
    {
      assert list[k] == vma && (m + 1 < |was| ==> list[k + 1] == was[m + 1]);
      NoneTwice(area, list);
      NextAt(list, k);
      DropNext(was, k, m);
      ReversesStep(held0, was, k, m);
      le := NextOf(list, vma);
      RemoveVma(vma, k);
      held := [vma] + held0;
    }

    // The areas below j are still in hand, and everything from j on has been dealt with.
    ghost predicate Trimming(c: Plan, j: nat)
      requires c.k <= j <= c.m
      reads this, tree
    {
      Linked() && Progress(Now(), elsewhere, c, j)
    }

    // mm_unmap's second loop
    method TrimAll(held: seq<Ref>, lo: nat, hi: nat, ghost c: Plan)
      requires lo == c.lo && hi == c.hi && Reverses(held, c.was, c.k, c.m) && Trimming(c, c.m)
      modifies this, tree
      ensures (tree == old(tree) || fresh(tree)) && elsewhere == old(elsewhere) && Trimming(c, c.k)
    {
      var i: nat := 0;
      ghost var j := c.m;
      while i < |held|
        invariant i <= |held| && j == c.m - i && (tree == old(tree) || fresh(tree)) && elsewhere == old(elsewhere)
        invariant Trimming(c, j)
      {
        ghost var next := j - 1;
        TrimTurn(held[i], lo, hi, c, j, next);
        i, j := i + 1, next;
      }
    }

    lemma TrimDone(c: Plan)
      requires Trimming(c, c.k)
      ensures Linked() && View() == Cut(c.s, c.lo, c.hi) && pte == Erased(c.pte, c.lo, c.hi) && Counted(refs, elsewhere, View())
    {
      TrimmedEnd(c.s, c.lo, c.hi, c.k, c.m, c.pte, View());
    }

    method TrimTurn(vma: Ref, lo: nat, hi: nat, ghost c: Plan, ghost j: nat, ghost next: nat)
      requires lo == c.lo && hi == c.hi && c.k <= next < j <= c.m && next == j - 1 && Trimming(c, j) && vma == c.was[next]
      modifies this, tree
      ensures (tree == old(tree) || fresh(tree)) && elsewhere == old(elsewhere) && Trimming(c, next)
    {
      TrimNext(vma, lo, hi, c, j);
    }

    method TrimNext(vma: Ref, lo: nat, hi: nat, ghost c: Plan, ghost j: nat)
      requires lo == c.lo && hi == c.hi && c.k < j <= c.m && Trimming(c, j) && vma == c.was[j - 1]
      modifies this, tree
      ensures (tree == old(tree) || fresh(tree)) && elsewhere == old(elsewhere) && Trimming(c, j - 1)
    {
      TurnReady(Now(), elsewhere, c, j);
      ghost var before := Now();
      TrimOne(vma, lo, hi);
      ProgressStep(before, Now(), elsewhere, c, j);
    }

    // mm_map: exactly the pages that the range touches become mapped, by one new area at its place in the list. It is
    // refused exactly if the range leaves user space or one of its pages is taken, and fails if kmalloc then has no room.
    method MmMap(addr: Address, len: Address, flags: Flags, room: bool)
      returns (ret: Status, vma: Option<Ref>, ghost p: nat)
      requires Valid()
      modifies this, tree
      ensures Valid() && (tree == old(tree) || fresh(tree))
      ensures pte == old(pte) && refs == old(refs) && elsewhere == old(elsewhere)
      ensures ret == Invalid <==> !Accepts(addr, len) || Occupied(old(View()), addr, len)
      ensures ret == NoMemory <==> ret != Invalid && !room
      ensures ret != Done ==> View() == old(View()) && list == old(list)
      ensures ret == Done ==> NewlyMapped(old(View()), View(), addr, len, flags.(share := false), None)
      ensures ret == Done ==> var x := NewArea(addr, len, flags);
                              FitsAt(old(View()), x, p) && View() == With(old(View()), p, x)
                              && vma.Some? && p < |list| && list[p] == vma.value
    {
      var x := NewArea(addr, len, flags);
      NewAreaCovers(addr, len, flags);
      vma := None;
      if !UserAccess(x.start, x.end) {
        return Invalid, None, 0;
      }
      var found;
      found, p := FindVma(x.start);
      ClearByFirst(View(), x, p);
      ClearIsFree(View(), x, addr, len);
      if found.Some? && x.end > area[found.value].start {
        return Invalid, None, 0;
      }
      ret, vma, p := MapNew(x, room);
      if ret == Done {
        WithNewlyMapped(old(View()), p, x, addr, len);
      }
    }

    // vma_create and insert_vma_struct
    method MapNew(x: Area, room: bool) returns (ret: Status, vma: Option<Ref>, ghost p: nat)
      requires Valid() && WellFormed(x) && !x.flags.share && Clear(View(), x)
      modifies this, tree
      ensures Valid() && (tree == old(tree) || fresh(tree)) && pte == old(pte) && refs == old(refs) && elsewhere == old(elsewhere)
      ensures ret == if room then Done else NoMemory
      ensures ret != Done ==> View() == old(View()) && list == old(list)
      ensures ret == Done ==> FitsAt(old(View()), x, p) && View() == With(old(View()), p, x)
                              && vma.Some? && p < |list| && list[p] == vma.value
    {
      vma := VmaCreate(x, room);
      if vma.None? {
        return NoMemory, None, 0;
      }
      var index: bool := *;
      p := InsertVma(vma.value, index);
      WithAt(old(list), p, vma.value);
      SoundWith(old(View()), x, p, pte, refs, elsewhere);
      ret := Done;
    }

    // The range lies inside one area: it keeps the part above, and a new area takes the part below.
    method SplitVma(vma: Ref, lo: nat, hi: nat, room: bool, ghost k: nat) returns (ret: Status)
      requires Linked() && k < |list| && list[k] == vma && Splits(area[vma], lo, hi)
      requires lo < hi && lo % PGSIZE == 0 && hi % PGSIZE == 0 && area[vma].end % PGSIZE == 0
      modifies this`area, this`list, this`mapCount, this`tree, tree
      ensures Linked() && (tree == old(tree) || fresh(tree))
      ensures ret == if room then Done else NoMemory
      ensures ret == NoMemory ==> View() == old(View())
      ensures ret == Done ==> View() == Halved(old(View()), k, lo, hi)
    {
      var x := area[vma];
      var nvma := VmaCreate(Area(x.start, lo, x.flags, None, 0), room);
      if nvma.None? {
        return NoMemory;
      }
      ret := Done;
      ResizeLinked(vma, hi, x.end, k);
      HalvedFits(old(View()), k, lo, hi);
      var index: bool := *;
      ghost var p := InsertVma(nvma.value, index);
      HalvedPlace(old(View()), k, lo, hi, p);
    }

    // vma_resize of a linked area, whose key changes in place inside the tree
    method ResizeLinked(vma: Ref, start: nat, end: nat, ghost k: nat)
      requires Linked() && k < |list| && list[k] == vma && start % PGSIZE == 0 && end % PGSIZE == 0
      requires area[vma].start <= start < end <= area[vma].end
      modifies this`area
      ensures Linked() && area == old(area)[vma := Resized(old(area)[vma], start, end)]
      ensures View() == old(View())[k := Resized(old(area)[vma], start, end)]
    {
      Shrunk(area, list, k, Resized(area[vma], start, end));
      VmaResize(vma, start, end);
    }

    method UnmapInside(vma: Ref, lo: nat, hi: nat, room: bool, ghost k: nat) returns (ret: Status)
      requires Valid() && k < |list| && list[k] == vma && Splits(area[vma], lo, hi)
      requires lo < hi && lo % PGSIZE == 0 && hi % PGSIZE == 0
      modifies this, tree
      ensures Valid() && (tree == old(tree) || fresh(tree)) && refs == old(refs) && elsewhere == old(elsewhere)
      ensures ret == if room then Done else NoMemory
      ensures ret == NoMemory ==> View() == old(View()) && pte == old(pte)
      ensures ret == Done ==> Unmapped(old(View()), View(), lo, hi) && pte == Erased(old(pte), lo, hi)
    {
      ghost var s := View();
      assert WellFormed(s[k]);
      ret := SplitVma(vma, lo, hi, room, k);
      if ret == Done {
        UnmapRange(lo, hi);
        HalvedUnmaps(s, k, lo, hi);
        SoundUnmapped(s, View(), lo, hi, pte, old(pte));
        HalvedCounted(s, k, lo, hi, refs, elsewhere);
      }
    }

    // mm_unmap: exactly the pages that the range touches lose their areas and page table entries. It is refused exactly if
    // the range leaves user space, and fails if kmalloc has no room when an area must be split.
    method MmUnmap(addr: Address, len: Address, room: bool) returns (ret: Status)
      requires Valid()
      requires var lo, hi := RoundDown(addr), RoundUp(Add32(addr, len)); UserAccess(lo, hi) ==> DestroysBacked(View(), lo, hi)
      modifies this, tree
      ensures Valid() && (tree == old(tree) || fresh(tree)) && elsewhere == old(elsewhere)
      ensures ret == Invalid <==> !Accepts(addr, len)
      ensures ret != Done ==> View() == old(View()) && pte == old(pte) && refs == old(refs)
      ensures ret == Done ==> forall a, f :: HasFlags(View(), a, f) <==> HasFlags(old(View()), a, f) && !Touches(addr, len, a)
      ensures ret == Done ==> forall a :: a in pte <==> a in old(pte) && !Touches(addr, len, a)
      ensures forall a :: a in pte ==> pte[a] == old(pte)[a]
      ensures var lo, hi := RoundDown(addr), RoundUp(Add32(addr, len));
              (ret == NoMemory <==> ret != Invalid && !room && SplitsOne(old(View()), lo, hi))
              && (ret == Done ==> Unmapped(old(View()), View(), lo, hi))
              && (old(Backed(View())) ==> (Backed(View()) <==> ret != Done || SparesShared(old(View()), lo, hi)))
    {
      var lo, hi := RoundDown(addr), RoundUp(Add32(addr, len));
      Rounded(addr);
      Rounded(Add32(addr, len));
      RoundedRange(addr, len);
      if !UserAccess(lo, hi) {
        return Invalid;
      }
      ret := UnmapPages(lo, hi, room);
      if ret == Done {
        UnmapBacked(old(View()), View(), lo, hi);
        forall a, f ensures HasFlags(View(), a, f) <==> HasFlags(old(View()), a, f) && !Touches(addr, len, a) {
          UnmapErases(old(View()), View(), lo, hi, a, f);
        }
      }
    }

    // The rest of mm_unmap, on whole pages
    method UnmapPages(lo: nat, hi: nat, room: bool) returns (ret: Status)
      requires Valid() && lo < hi && lo % PGSIZE == 0 && hi % PGSIZE == 0 && DestroysBacked(View(), lo, hi)
      modifies this, tree
      ensures Valid() && (tree == old(tree) || fresh(tree)) && elsewhere == old(elsewhere)
      ensures ret == if !room && SplitsOne(old(View()), lo, hi) then NoMemory else Done
      ensures ret != Done ==> View() == old(View()) && pte == old(pte) && refs == old(refs)
      ensures ret == Done ==> Unmapped(old(View()), View(), lo, hi) && pte == Erased(old(pte), lo, hi)
    {
      var vma;
      ghost var k;
      vma, k := FindVma(lo);
      NoSplit(View(), lo, hi, k);
      if vma.None? || hi <= area[vma.value].start {
        NothingThere(View(), lo, hi, k, pte);
        return Done;
      }
      ret := UnmapFrom(vma.value, lo, hi, room, k);
    }

    // The range overlaps area k.
    method UnmapFrom(vma: Ref, lo: nat, hi: nat, room: bool, ghost k: nat) returns (ret: Status)
      requires Valid() && lo < hi && lo % PGSIZE == 0 && hi % PGSIZE == 0 && DestroysBacked(View(), lo, hi)
      requires k < |list| && list[k] == vma && IsFirst(View(), lo, k) && area[vma].start < hi
      modifies this, tree
      ensures Valid() && (tree == old(tree) || fresh(tree)) && elsewhere == old(elsewhere)
      ensures ret == if !room && Splits(old(View())[k], lo, hi) then NoMemory else Done
      ensures ret != Done ==> View() == old(View()) && pte == old(pte) && refs == old(refs)
      ensures ret == Done ==> Unmapped(old(View()), View(), lo, hi) && pte == Erased(old(pte), lo, hi)
    {
      var x := area[vma];
      assert View()[k] == x;
      if x.start < lo && hi < x.end {
        ret := UnmapInside(vma, lo, hi, room, k);
      } else {
        UnmapTouched(vma, lo, hi, k);
        ret := Done;
      }
    }

    // What the first loop leaves is what the second starts from.
    lemma Taken(held: seq<Ref>, next: Option<Ref>, a: Areas, c: Plan)
      requires Taking(held, next, c.was, a, c.k, c.m) && c.s == Deref(a, c.was) && Counted(refs, elsewhere, c.s) && pte == c.pte
      requires pte == Erased(pte, ErasedFrom(c.s, c.lo, c.hi, c.m, c.m), c.hi)
      ensures Trimming(c, c.m)
    {
      RemovedView(area, c.was, list, c.s, c.lo, c.hi, c.k, c.m);
      RemovedHeld(area, c.was, list, c.s, c.k, c.m);
      RemovedCounted(c.s, c.k, c.m, refs, elsewhere);
    }

    // The range does not lie inside one area.
    method UnmapTouched(vma: Ref, lo: nat, hi: nat, ghost k: nat)
      requires Valid() && lo < hi && lo % PGSIZE == 0 && hi % PGSIZE == 0 && k < |list| && list[k] == vma
      requires IsFirst(View(), lo, k) && area[vma].start < hi && !Splits(area[vma], lo, hi) && DestroysBacked(View(), lo, hi)
      modifies this, tree
      ensures Valid() && (tree == old(tree) || fresh(tree)) && elsewhere == old(elsewhere)
      ensures Unmapped(old(View()), View(), lo, hi) && pte == Erased(old(pte), lo, hi)
    {
      ghost var s, was, m := View(), list, 0;
      var held;
      NoneTwice(area, list);
      Rejoin(list, k);
      ghost var next;
      held, next, m := RemoveTouched(vma, hi, k, area, list);
      ghost var c := RemovedPlan(s, was, lo, hi, k, m, pte);
      Taken(held, next, area, c);
      TrimHeld(held, lo, hi, c);
    }

    method TrimHeld(held: seq<Ref>, lo: nat, hi: nat, ghost c: Plan)
      requires lo == c.lo && hi == c.hi && Reverses(held, c.was, c.k, c.m) && Trimming(c, c.m)
      modifies this, tree
      ensures Valid() && (tree == old(tree) || fresh(tree)) && elsewhere == old(elsewhere)
      ensures Unmapped(c.s, View(), lo, hi) && pte == Erased(c.pte, lo, hi)
    {
      TrimAll(held, lo, hi, c);
      TrimDone(c);
      SoundUnmapped(c.s, View(), lo, hi, pte, c.pte);
    }

    // mm_map_shmem: the pages show the object from its start on, and the object gains one reference.
    method MmMapShmem(addr: Address, flags: Flags, shmem: Option<nat>, len: Address, room: bool)
      returns (ret: Status, ghost p: nat)
      requires Valid()
      modifies this, tree
      ensures Valid() && (tree == old(tree) || fresh(tree)) && pte == old(pte) && elsewhere == old(elsewhere)
      ensures ret == Invalid <==>
              addr % PGSIZE != 0 || shmem.None? || !Accepts(addr, len) || Occupied(old(View()), addr, len)
      ensures ret == NoMemory <==> ret != Invalid && !room
      ensures ret != Done ==> View() == old(View()) && refs == old(refs)
      ensures ret == Done ==> shmem.Some? && addr % PGSIZE == 0 && refs == RefInc(old(refs), shmem.value)
                              && NewlyMapped(old(View()), View(), addr, len, flags.(share := true), shmem)
      ensures ret == Done ==> var x := Attached(NewArea(addr, len, flags), shmem.value);
                              FitsAt(old(View()), x, p) && View() == With(old(View()), p, x)
    {
      if addr % PGSIZE != 0 || shmem.None? {
        return Invalid, 0;
      }
      Lend(shmem.value);
      ret, p := MapLent(addr, len, flags, shmem.value, room, old(refs), old(elsewhere));
      if ret == Done {
        AttachedMaps(old(View()), p, addr, len, flags, shmem.value);
      }
    }

    // mm_map and what follows it, the reference having been taken
    method MapLent(addr: Address, len: Address, flags: Flags, o: nat, room: bool,
                   ghost refs0: map<nat, nat>, ghost elsewhere0: map<nat, nat>)
      returns (ret: Status, ghost p: nat)
      requires Valid() && refs == RefInc(refs0, o) && elsewhere == RefInc(elsewhere0, o) && Counted(refs0, elsewhere0, View())
      modifies this, tree
      ensures Valid() && (tree == old(tree) || fresh(tree)) && pte == old(pte) && elsewhere == elsewhere0
      ensures ret == Invalid <==> !Accepts(addr, len) || Occupied(old(View()), addr, len)
      ensures ret == NoMemory <==> ret != Invalid && !room
      ensures ret != Done ==> View() == old(View()) && refs == refs0
      ensures ret == Done ==> var x := Attached(NewArea(addr, len, flags), o);
                              refs == old(refs) && FitsAt(old(View()), x, p) && View() == With(old(View()), p, x)
    {
      var vma;
      ret, vma, p := MmMap(addr, len, flags, room);
      if ret != Done {
        TakeBack(o, refs0, elsewhere0);
      } else {
        Attach(vma.value, o, old(View()), NewArea(addr, len, flags), p, elsewhere0);
      }
    }

    // shmem_ref_inc: the reference counts as held elsewhere until an area names the object
    method Lend(o: nat)
      requires Valid()
      modifies this`refs, this`elsewhere
      ensures Valid() && refs == RefInc(old(refs), o) && elsewhere == RefInc(old(elsewhere), o)
    {
      Lent(refs, elsewhere, View(), o);
      refs, elsewhere := RefInc(refs, o), RefInc(elsewhere, o);
    }

    // shmem_ref_dec, when nothing was mapped
    method TakeBack(o: nat, ghost refs0: map<nat, nat>, ghost elsewhere0: map<nat, nat>)
      requires Valid() && refs == RefInc(refs0, o) && elsewhere == RefInc(elsewhere0, o)
               && Counted(refs0, elsewhere0, View())
      modifies this`refs, this`elsewhere
      ensures Valid() && refs == refs0 && elsewhere == elsewhere0
    {
      Lent(refs0, elsewhere0, View(), o);
      refs, elsewhere := RefDec(refs, o), elsewhere0;
    }

    // vma->shmem = shmem, vma->shmem_off = 0, vma->vm_flags |= VM_SHARE
    method Attach(vma: Ref, o: nat, ghost s: seq<Area>, ghost x: Area, ghost p: nat, ghost before: map<nat, nat>)
      requires Valid() && p < |list| && list[p] == vma && p <= |s| && View() == With(s, p, x)
               && elsewhere == RefInc(before, o)
      requires !x.flags.share
      modifies this`area, this`elsewhere
      ensures Valid() && View() == With(s, p, Attached(x, o)) && elsewhere == before
    {
      ghost var y := Attached(x, o);
      WithAt(s, p, x);
      WithAt(s, p, y);
      assert With(s, p, x)[p := y] == With(s, p, y);
      assert WellFormed(View()[p]);
      Shrunk(area, list, p, y);
      SoundAttached(s, p, x, o, pte, refs, before);
      area := area[vma := Attached(area[vma], o)];
      elsewhere := before;
    }

    // The areas of dup_mmap: copied from the last to the first, as long as kmalloc has room
    method DupAreas(from: seq<Area>, room: nat) returns (ret: Status, ghost j: nat)
      requires Valid() && list == [] && pte == map[] && Disjoint(from) && AllWellFormed(from) && Backed(from)
      modifies this, tree
      ensures Valid() && (tree == old(tree) || fresh(tree)) && elsewhere == old(elsewhere)
      ensures if room < |from| then ret == NoMemory && j == |from| - room else ret == Done && j == 0
      ensures View() == from[j..]
    {
      j := |from|;
      var i := |from|;
      while i > 0
        invariant 0 <= i == j <= |from| && Valid() && (tree == old(tree) || fresh(tree)) && elsewhere == old(elsewhere)
        invariant View() == from[j..] && pte == map[] && |from| - i <= room
      {
        var ok := DupArea(from, i - 1, |from| - i < room);
        if !ok {
          return NoMemory, j;
        }
        i := i - 1;
        j := i;
      }
      ret := Done;
    }

    method DupArea(from: seq<Area>, i: nat, room: bool) returns (ok: bool)
      requires Valid() && i < |from| && View() == from[i + 1..] && pte == map[]
      requires Disjoint(from) && AllWellFormed(from) && Backed(from)
      modifies this, tree
      ensures Valid() && (tree == old(tree) || fresh(tree)) && elsewhere == old(elsewhere) && pte == map[]
      ensures ok == room && View() == if ok then from[i..] else from[i + 1..]
    {
      SoundFront(refs, elsewhere, from, i);
      var x := from[i];
      var nvma := VmaCreate(Copied(x), room);
      if nvma.None? {
        return false;
      }
      if x.flags.share {
        refs := RefInc(refs, x.shmem.value);
      }
      InsertFront(nvma.value, from, i);
      ok := true;
    }

    method InsertFront(vma: Ref, ghost from: seq<Area>, ghost i: nat)
      requires Linked() && Disjoint(from) && i < |from| && View() == from[i + 1..] && vma in area && area[vma] == from[i]
      modifies this`list, this`mapCount, this`tree, tree
      ensures Linked() && (tree == old(tree) || fresh(tree)) && View() == from[i..]
    {
      FrontFits(from, i);
      var index: bool := *;
      ghost var p := InsertVma(vma, index);
      FrontPlace(from, i, p);
    }

    // mm_destroy
    method MmDestroy()
      requires Valid() && Backed(View())
      modifies this
      ensures list == [] && elsewhere == old(elsewhere) && forall o: nat :: RefOf(refs, o) == RefOf(elsewhere, o)
    {
      tree := null;
      while list != []
        invariant InOrderOf(area, list) && Counted(refs, elsewhere, View()) && Backed(View()) && elsewhere == old(elsewhere)
        decreases |list|
      {
        DestroyFirst();
      }
    }

    method DestroyFirst()
      requires InOrderOf(area, list) && Counted(refs, elsewhere, View()) && Backed(View()) && list != []
      modifies this`list, this`refs, this`area
      ensures InOrderOf(area, list) && Counted(refs, elsewhere, View()) && Backed(View()) && |list| < |old(list)|
    {
      var vma := list[0];
      FirstGone(area, list);
      assert HasObject(View()[0]);
      CountedTail(refs, elsewhere, View());
      list := list[1..];
      refs := Released(refs, area[vma]);
      area := area - {vma};
    }

    // get_unmapped_area: the greatest place, and 0 exactly if there is none
    method GetUnmappedArea(len: Address) returns (start: nat)
      requires Valid()
      ensures start == 0 <==> len == 0 || forall c: nat :: !FreeAt(View(), c, len)
      ensures start != 0 ==> FreeAt(View(), start, len) && forall c: nat :: FreeAt(View(), c, len) ==> c <= start
    {
      if len == 0 || len > USERTOP {
        return 0;
      }
      ghost var s := View();
      start := USERTOP - len;
      var i := |list|;
      while i > 0
        invariant 0 <= i <= |list| && start + len <= USERTOP
        invariant forall c: nat :: FreeAt(s, c, len) ==> c <= start
        invariant i < |list| ==> start + len <= s[i].start
      {
        i := i - 1;
        var x := area[list[i]];
        assert WellFormed(s[i]);
        if start >= x.end {
          FreeBetween(s, i, start, len);
          assert FreeAt(View(), start, len);
          return;
        }
        if start + len > x.start {
          FreeBelow(s, i, start, len);
          if len >= x.start {
            assert forall c: nat :: !FreeAt(s, c, len);
            return 0;
          }
          start := x.start - len;
        }
      }
      if start >= USERBASE {
        FreeAtBottom(s, start, len);
        assert FreeAt(View(), start, len);
      } else {
        assert forall c: nat :: !FreeAt(s, c, len);
        start := 0;
      }
    }

    // user_mem_check with an mm
    method UserMemCheck(addr: Address, len: Address, write: bool) returns (ok: bool)
      requires Valid()
      modifies this`cache
      ensures Valid()
      ensures ok <==> UserAccess(addr, Add32(addr, len))
                      && forall a :: addr <= a < Add32(addr, len) ==> Permits(View(), a, write)
    {
      var start: nat, end := addr, Add32(addr, len);
      if !UserAccess(addr, end) {
        return false;
      }
      ghost var s := View();
      while start < end
        invariant addr <= start && Valid() && View() == s
        invariant forall a :: addr <= a < start ==> Permits(s, a, write)
        decreases end - start
      {
        var vma;
        ghost var k;
        vma, k := FindVma(start);
        PermitsAt(s, start, k, write);
        if vma.None? || start < area[vma.value].start {
          return false;
        }
        var x := area[vma.value];
        if !(if write then x.flags.write else x.flags.read) {
          return false;
        }
        if write && x.flags.stack && start < x.start + PGSIZE {
          return false;
        }
        PermitsOn(s, start, k, write);
        start := x.end;
      }
      ok := true;
    }
  }

  // user_mem_check; without an mm it is the kernel's own range that counts.
  method UserMemCheck(mm: Mm?, addr: Address, len: Address, write: bool) returns (ok: bool)
    requires mm != null ==> mm.Valid()
    modifies if mm == null then {} else {mm}`cache
    ensures mm == null ==> (ok <==> KERNBASE <= addr < Add32(addr, len) <= KERNTOP)
    ensures mm != null ==> mm.Valid()
    ensures mm != null ==> (ok <==> UserAccess(addr, Add32(addr, len))
                                    && forall a :: addr <= a < Add32(addr, len) ==> Permits(mm.View(), a, write))
  {
    if mm != null {
      ok := mm.UserMemCheck(addr, len, write);
      return;
    }
    return KernAccess(addr, Add32(addr, len));
  }

  // [c, c + len) lies in user space and touches no area.
  ghost predicate FreeAt(s: seq<Area>, c: nat, len: nat) {
    USERBASE <= c && c + len <= USERTOP && forall i :: 0 <= i < |s| ==> c + len <= s[i].start || s[i].end <= c
  }

  lemma FreeBetween(s: seq<Area>, i: nat, start: nat, len: nat)
    requires Disjoint(s) && i < |s| && WellFormed(s[i]) && s[i].end <= start && start + len <= USERTOP
    requires i + 1 < |s| ==> start + len <= s[i + 1].start
    ensures FreeAt(s, start, len)
  {
    forall j | 0 <= j < |s| ensures start + len <= s[j].start || s[j].end <= start {
      assert j < i ==> s[j].end <= s[i].start;
      assert i + 1 < j ==> s[i + 1].start < s[i + 1].end <= s[j].start;
    }
  }

  lemma FreeBelow(s: seq<Area>, i: nat, start: nat, len: nat)
    requires i < |s| && start < s[i].end && forall c: nat :: FreeAt(s, c, len) ==> c <= start
    ensures forall c: nat :: FreeAt(s, c, len) ==> USERBASE <= c && c + len <= s[i].start
  {
  }

  lemma FreeAtBottom(s: seq<Area>, start: nat, len: nat)
    requires Disjoint(s) && USERBASE <= start && start + len <= USERTOP && (0 < |s| ==> start + len <= s[0].start)
    ensures FreeAt(s, start, len)
  {
    forall j | 0 <= j < |s| ensures start + len <= s[j].start {
      assert 0 < j ==> s[0].start < s[0].end <= s[j].start;
    }
  }

  predicate Allows(x: Area, a: int, write: bool) {
    (if write then x.flags.write else x.flags.read) && (write && x.flags.stack ==> a >= x.start + PGSIZE)
  }

  // Address a lies in an area with the permission, and for a stack write at least a page above its start.
  ghost predicate Permits(s: seq<Area>, a: int, write: bool) {
    exists i :: 0 <= i < |s| && Covers(s[i], a) && Allows(s[i], a, write)
  }

  lemma PermitsAt(s: seq<Area>, a: nat, k: nat, write: bool)
    requires Disjoint(s) && IsFirst(s, a, k)
    ensures Permits(s, a, write) <==> k < |s| && Covers(s[k], a) && Allows(s[k], a, write)
  {
    if Permits(s, a, write) {
      var i :| 0 <= i < |s| && Covers(s[i], a) && Allows(s[i], a, write);
      FirstIfCovers(s, a, i);
      FirstUnique(s, a, i, k);
    }
  }

  lemma PermitsOn(s: seq<Area>, start: nat, k: nat, write: bool)
    requires k < |s| && s[k].start <= start && Allows(s[k], start, write)
    ensures forall a :: start <= a < s[k].end ==> Permits(s, a, write)
  {
    forall a | start <= a < s[k].end ensures Permits(s, a, write) {
      assert Covers(s[k], a) && Allows(s[k], a, write);
    }
  }

  function Attached(x: Area, o: nat): Area { x.(shmem := Some(o), off := 0, flags := x.flags.(share := true)) }

  lemma AttachedMaps(s: seq<Area>, p: nat, addr: Address, len: Address, flags: Flags, o: nat)
    requires p <= |s| && Accepts(addr, len)
    ensures NewlyMapped(s, With(s, p, Attached(NewArea(addr, len, flags), o)), addr, len, flags.(share := true), Some(o))
  {
    NewAreaCovers(addr, len, flags);
    WithNewlyMapped(s, p, Attached(NewArea(addr, len, flags), o), addr, len);
  }

  lemma Lent(refs: map<nat, nat>, elsewhere: map<nat, nat>, s: seq<Area>, o: nat)
    requires Counted(refs, elsewhere, s)
    ensures Counted(RefInc(refs, o), RefInc(elsewhere, o), s) && RefDec(RefInc(refs, o), o) == refs
  {
    forall q: nat ensures RefOf(RefInc(refs, o), q) == RefOf(RefInc(elsewhere, o), q) + Naming(s, q) {
      assert RefOf(refs, q) == RefOf(elsewhere, q) + Naming(s, q);
    }
    assert o in refs ==> RefOf(refs, o) > 0;
    forall q: nat | q in RefInc(refs, o) ensures RefOf(RefInc(refs, o), q) > 0 {
      assert q in refs ==> RefOf(refs, q) > 0;
    }
  }

  lemma SoundAttached(s: seq<Area>, p: nat, x: Area, o: nat, pte: map<nat, nat>, refs: map<nat, nat>, before: map<nat, nat>)
    requires p <= |s| && !x.flags.share && AllWellFormed(With(s, p, x)) && PtesMapped(pte, With(s, p, x))
    requires Counted(refs, RefInc(before, o), With(s, p, x))
    ensures var t := With(s, p, Attached(x, o)); AllWellFormed(t) && PtesMapped(pte, t) && Counted(refs, before, t)
  {
    var t0, t := With(s, p, x), With(s, p, Attached(x, o));
    WithAt(s, p, x);
    WithAt(s, p, Attached(x, o));
    forall i | 0 <= i < |t| ensures WellFormed(t[i]) {
      assert WellFormed(t0[i]);
    }
    forall a | a in pte ensures Mapped(t, a) {
      MappedWith(s, p, x, a);
      MappedWith(s, p, Attached(x, o), a);
    }
    forall q: nat ensures RefOf(refs, q) == RefOf(before, q) + Naming(t, q) {
      NamingWith(s, p, x, q);
      NamingWith(s, p, Attached(x, o), q);
    }
  }

  lemma FrontFits(from: seq<Area>, i: nat)
    requires Disjoint(from) && i < |from|
    ensures FitsAt(from[i + 1..], from[i], 0) && Clear(from[i + 1..], from[i]) && Disjoint(from[i + 1..])
    ensures With(from[i + 1..], 0, from[i]) == from[i..]
  {
  }

  lemma FrontPlace(from: seq<Area>, i: nat, p: nat)
    requires Disjoint(from) && i < |from| && FitsAt(from[i + 1..], from[i], p)
    ensures With(from[i + 1..], p, from[i]) == from[i..]
  {
    FrontFits(from, i);
    PlaceIs(from[i + 1..], from[i], p);
    PlaceIs(from[i + 1..], from[i], 0);
  }

  // The copy dup_mmap makes of an area
  function Copied(x: Area): Area {
    if x.flags.share then Area(x.start, x.end, x.flags, x.shmem, x.off) else Area(x.start, x.end, x.flags, None, 0)
  }

  lemma SoundFront(refs: map<nat, nat>, elsewhere: map<nat, nat>, from: seq<Area>, i: nat)
    requires i < |from| && Counted(refs, elsewhere, from[i + 1..]) && AllWellFormed(from) && Backed(from)
    ensures WellFormed(from[i]) && HasObject(from[i]) && Copied(from[i]) == from[i] && AllWellFormed(from[i..])
    ensures Counted(if from[i].flags.share then RefInc(refs, from[i].shmem.value) else refs, elsewhere, from[i..])
  {
    assert WellFormed(from[i]) && HasObject(from[i]);
    assert forall t :: i <= t < |from| ==> WellFormed(from[t]);
    CountedFront(refs, elsewhere, from, i);
  }

  lemma FirstGone(area: Areas, list: seq<Ref>)
    requires InOrderOf(area, list) && list != []
    ensures InOrderOf(area - {list[0]}, list[1..]) && Deref(area - {list[0]}, list[1..]) == Deref(area, list)[1..]
  {
    NoneTwice(area, list);
    WithoutInOrder(area, list, 0);
    assert Without(list, 0) == list[1..];
    Forgotten(area, list[1..], list[0]);
  }

  lemma CountedTail(refs: map<nat, nat>, elsewhere: map<nat, nat>, s: seq<Area>)
    requires s != [] && HasObject(s[0]) && Counted(refs, elsewhere, s)
    ensures Counted(Released(refs, s[0]), elsewhere, s[1..])
  {
    var refs' := Released(refs, s[0]);
    forall q: nat ensures RefOf(refs', q) == RefOf(elsewhere, q) + Naming(s[1..], q) && (q in refs' ==> RefOf(refs', q) > 0) {
      assert RefOf(refs, q) == RefOf(elsewhere, q) + Naming(s, q);
    }
  }

  // ---------- mm_unmap ----------

  // list_next
  function NextOf(list: seq<Ref>, r: Ref): Option<Ref> {
    if |list| < 2 then None else if list[0] == r then Some(list[1]) else NextOf(list[1..], r)
  }

  lemma {:induction false} NextAt(list: seq<Ref>, p: nat)
    requires NoDup(list) && p < |list|
    ensures NextOf(list, list[p]) == if p + 1 < |list| then Some(list[p + 1]) else None
    decreases |list|
  {
    if p > 0 {
      TailNoDup(list, p);
      NextAt(list[1..], p - 1);
    }
  }

  // unmap_range
  function Erased(pte: map<nat, nat>, lo: nat, hi: nat): map<nat, nat> {
    map a | a in pte && !(lo <= a < hi) :: pte[a]
  }

  // What is left of an area that does not reach beyond both ends of the range
  function Rest(x: Area, lo: nat, hi: nat): seq<Area> { if x.start < lo then Below(x, lo) else Beyond(x, hi) }

  // The new list: with the piece at its place, if there is one
  ghost predicate Rejoined(s: seq<Area>, s': seq<Area>, piece: seq<Area>) {
    if piece == [] then s' == s else |piece| == 1 && exists p {:trigger FitsAt(s, piece[0], p)} ::
      FitsAt(s, piece[0], p) && s' == With(s, p, piece[0])
  }

  // What mm_unmap has put back of areas k to m, the last first; those below j are still in hand.
  ghost function PutBack(s: seq<Area>, lo: nat, hi: nat, k: nat, m: nat, j: nat): seq<Area>
    requires k < m <= |s| && k <= j <= m
  {
    (if j == k then Below(s[k], lo) else []) + (if j < m then Beyond(s[m - 1], hi) else [])
  }

  // The list meanwhile
  ghost function Trimmed(s: seq<Area>, lo: nat, hi: nat, k: nat, m: nat, j: nat): seq<Area>
    requires k < m <= |s| && k <= j <= m
  {
    s[..k] + PutBack(s, lo, hi, k, m, j) + s[m..]
  }

  // The areas that unmapping the range destroys have the objects that vma_destroy dereferences.
  ghost predicate DestroysBacked(s: seq<Area>, lo: nat, hi: nat) {
    forall i :: 0 <= i < |s| && lo <= s[i].start && s[i].end <= hi ==> HasObject(s[i])
  }

  // The range does not lie inside one area.
  ghost predicate Unsplit(s: seq<Area>, lo: nat, hi: nat, k: nat, m: nat) {
    Disjoint(s) && lo < hi && Touched(s, lo, hi, k, m) && (k + 1 == m ==> s[k].start >= lo || s[k].end <= hi)
  }

  lemma SlotIn(a: seq<Area>, b: seq<Area>, x: Area)
    requires forall i :: 0 <= i < |a| ==> a[i].end <= x.start
    requires forall i :: 0 <= i < |b| ==> x.end <= b[i].start
    ensures FitsAt(a + b, x, |a|) && With(a + b, |a|, x) == a + [x] + b && Clear(a + b, x)
  {
  }

  lemma LowPart(s: seq<Area>, k: nat)
    requires Disjoint(s) && k < |s|
    ensures forall i :: 0 <= i < k ==> s[..k][i].end <= s[k].start
  {
  }

  lemma HighPart(s: seq<Area>, hi: nat, m: nat)
    requires Disjoint(s) && 0 < m <= |s| && (m < |s| ==> s[m].start >= hi)
    ensures forall i :: 0 <= i < |s| - m ==> s[m..][i].start >= hi && s[m..][i].start >= s[m - 1].end
  {
    forall i | m <= i < |s| ensures s[i].start >= hi && s[i].start >= s[m - 1].end {
      assert m < i ==> s[m].start < s[m].end <= s[i].start;
    }
  }

  lemma MiddlePart(s: seq<Area>, lo: nat, hi: nat, k: nat, m: nat, j: nat)
    requires Unsplit(s, lo, hi, k, m) && k < j <= m
    ensures s[j - 1].start < s[j - 1].end && lo < s[j - 1].end && s[j - 1].start < hi
    ensures (k < j - 1 ==> lo <= s[j - 1].start) && s[k].start <= s[j - 1].start
    ensures j < m ==> s[j - 1].end <= s[m - 1].start < hi
  {
    assert k < j - 1 ==> s[k].end <= s[j - 1].start;
    assert j < m ==> s[j - 1].end <= s[m - 1].start;
  }

  lemma PutBackStep(s: seq<Area>, lo: nat, hi: nat, k: nat, m: nat, j: nat)
    requires Unsplit(s, lo, hi, k, m) && k < j <= m
    ensures PutBack(s, lo, hi, k, m, j - 1) == Rest(s[j - 1], lo, hi) + PutBack(s, lo, hi, k, m, j)
  {
    MiddlePart(s, lo, hi, k, m, j);
  }

  lemma TrimmedParts(s: seq<Area>, lo: nat, hi: nat, k: nat, m: nat, j: nat)
    requires Unsplit(s, lo, hi, k, m) && k < j <= m
    ensures var high := PutBack(s, lo, hi, k, m, j) + s[m..];
            Trimmed(s, lo, hi, k, m, j) == s[..k] + high
            && Trimmed(s, lo, hi, k, m, j - 1) == s[..k] + Rest(s[j - 1], lo, hi) + high
  {
    PutBackStep(s, lo, hi, k, m, j);
    Shuffle(s[..k], Rest(s[j - 1], lo, hi), PutBack(s, lo, hi, k, m, j), s[m..]);
  }

  lemma RestOf(y: Area, lo: nat, hi: nat)
    requires lo < hi && y.start < y.end && lo < y.end && y.start < hi && Rest(y, lo, hi) != []
    ensures var x := Rest(y, lo, hi)[0];
            Rest(y, lo, hi) == [x] && y.start <= x.start && x.end <= y.end && (x.end <= lo || hi < y.end)
  {
  }

  lemma AllStartAfter(a: seq<Area>, b: seq<Area>, e: nat)
    requires (forall i :: 0 <= i < |a| ==> e <= a[i].start) && (forall i :: 0 <= i < |b| ==> e <= b[i].start)
    ensures forall i :: 0 <= i < |a + b| ==> e <= (a + b)[i].start
  {
  }

  lemma RestFits(s: seq<Area>, lo: nat, hi: nat, k: nat, m: nat, j: nat)
    requires Unsplit(s, lo, hi, k, m) && k < j <= m && Rest(s[j - 1], lo, hi) != []
    ensures var x, high := Rest(s[j - 1], lo, hi)[0], PutBack(s, lo, hi, k, m, j) + s[m..];
            Rest(s[j - 1], lo, hi) == [x] && s[k].start <= x.start
            && forall i :: 0 <= i < |high| ==> x.end <= high[i].start
  {
    MiddlePart(s, lo, hi, k, m, j);
    RestOf(s[j - 1], lo, hi);
    HighPart(s, hi, m);
    var e := Rest(s[j - 1], lo, hi)[0].end;
    AllStartAfter(PutBack(s, lo, hi, k, m, j), s[m..], e);
  }

  // What is left of area j - 1 goes at position k.
  lemma TrimmedStep(s: seq<Area>, lo: nat, hi: nat, k: nat, m: nat, j: nat)
    requires Unsplit(s, lo, hi, k, m) && k < j <= m
    ensures var now, then_, rest := Trimmed(s, lo, hi, k, m, j), Trimmed(s, lo, hi, k, m, j - 1), Rest(s[j - 1], lo, hi);
            if rest == [] then then_ == now
            else |rest| == 1 && FitsAt(now, rest[0], k) && then_ == With(now, k, rest[0]) && Clear(now, rest[0])
  {
    TrimmedParts(s, lo, hi, k, m, j);
    if Rest(s[j - 1], lo, hi) != [] {
      RestFits(s, lo, hi, k, m, j);
      LowPart(s, k);
      SlotIn(s[..k], PutBack(s, lo, hi, k, m, j) + s[m..], Rest(s[j - 1], lo, hi)[0]);
    } else {
      NothingBetween(s[..k], PutBack(s, lo, hi, k, m, j) + s[m..]);
    }
  }

  lemma NothingBetween(a: seq<Area>, b: seq<Area>)
    ensures a + [] + b == a + b
  {
  }

  lemma Shuffle(a: seq<Area>, c: seq<Area>, b: seq<Area>, d: seq<Area>)
    ensures a + (c + b) + d == a + c + (b + d)
    ensures a + b + d == a + (b + d)
  {
  }

  // The only position at which x can fit
  ghost function Place(s: seq<Area>, x: Area): nat {
    if s == [] || x.end <= s[0].start then 0 else 1 + Place(s[1..], x)
  }

  lemma {:induction false} PlaceIs(s: seq<Area>, x: Area, p: nat)
    requires x.start < x.end && FitsAt(s, x, p) && forall i :: 0 <= i < |s| ==> s[i].start < s[i].end
    ensures p == Place(s, x)
    decreases |s|
  {
    if p > 0 {
      PlaceIs(s[1..], x, p - 1);
    }
  }

  lemma RejoinedAt(s: seq<Area>, s': seq<Area>, x: Area, q: nat)
    requires Disjoint(s) && x.start < x.end && FitsAt(s, x, q) && Rejoined(s, s', [x])
    ensures s' == With(s, q, x)
  {
    var p: nat :| FitsAt(s, [x][0], p) && s' == With(s, p, x);
    PlaceIs(s, x, p);
    PlaceIs(s, x, q);
  }

  // Areas k to j are as they were, and out of the list.
  ghost predicate InHand(area: Areas, list: seq<Ref>, s: seq<Area>, was: seq<Ref>, k: nat, j: nat) {
    k <= j <= |was| == |s| && forall t :: k <= t < j ==> was[t] in area && area[was[t]] == s[t] && was[t] !in list
  }

  // The areas, and what unmapping them touches, at one moment of mm_unmap
  datatype Shot = Shot(view: seq<Area>, area: Areas, list: seq<Ref>, pte: map<nat, nat>, refs: map<nat, nat>)

  // One turn of the second loop: what is left of the area is linked again, or it is destroyed, and its pages are unmapped.
  ghost predicate TrimmedOne(c: Shot, c': Shot, vma: Ref, lo: nat, hi: nat) {
    vma in c.area
    && var x := c.area[vma];
       Rejoined(c.view, c'.view, Rest(x, lo, hi))
       && (forall r :: r != vma ==> (r in c'.area <==> r in c.area) && (r in c'.area ==> c'.area[r] == c.area[r]))
       && (forall r :: r in c'.list ==> r in c.list || r == vma)
       && c'.pte == Erased(c.pte, if x.start < lo then lo else x.start, if x.end > hi then hi else x.end)
       && (Rest(x, lo, hi) == [] ==> HasObject(x))
       && c'.refs == if Rest(x, lo, hi) == [] then Released(c.refs, x) else c.refs
  }

  // One unmapping: the areas, of which those from k to m overlap the range, and the page table entries as they were
  datatype Cutting = Cutting(s: seq<Area>, was: seq<Ref>, lo: nat, hi: nat, k: nat, m: nat, pte: map<nat, nat>)

  ghost predicate Planned(c: Cutting) {
    c.lo % PGSIZE == 0 && c.hi % PGSIZE == 0 && Unsplit(c.s, c.lo, c.hi, c.k, c.m) && AllWellFormed(c.s) && PtesMapped(c.pte, c.s)
    && DestroysBacked(c.s, c.lo, c.hi) && NoDup(c.was) && |c.was| == |c.s|
    && forall i :: 0 <= i < |c.s| ==> !Splits(c.s[i], c.lo, c.hi)
  }

  type Plan = c: Cutting | Planned(c) ghost witness OnePage()

  // The first user page, the only area, is unmapped.
  ghost function OnePage(): (c: Cutting)
    ensures Planned(c)
  {
    var x := Area(USERBASE, USERBASE + PGSIZE, Flags(true, false, false, false, false), None, 0);
    Cutting([x], [0], x.start, x.end, 0, 1, map[])
  }

  // The areas below j are still in hand, and everything from j on has been dealt with.
  ghost predicate Progress(now: Shot, elsewhere: map<nat, nat>, c: Plan, j: nat)
    requires c.k <= j <= c.m
  {
    now.view == Trimmed(c.s, c.lo, c.hi, c.k, c.m, j) && InHand(now.area, now.list, c.s, c.was, c.k, j)
    && now.pte == Erased(c.pte, ErasedFrom(c.s, c.lo, c.hi, c.m, j), c.hi) && Counted(now.refs, elsewhere, now.view + c.s[c.k..j])
  }

  lemma HandStep(c: Shot, c': Shot, s: seq<Area>, was: seq<Ref>, lo: nat, hi: nat, k: nat, j: nat)
    requires k < j && InHand(c.area, c.list, s, was, k, j) && NoDup(was) && TrimmedOne(c, c', was[j - 1], lo, hi)
    ensures InHand(c'.area, c'.list, s, was, k, j - 1)
  {
  }

  // What TrimOne needs to know of the next area
  lemma TurnReady(now: Shot, elsewhere: map<nat, nat>, c: Plan, j: nat)
    requires c.k < j <= c.m && Progress(now, elsewhere, c, j)
    ensures var vma := c.was[j - 1];
            vma in now.area && vma !in now.list
            && var x := now.area[vma];
               WellFormed(x) && c.lo < x.end && x.start < c.hi && (x.start >= c.lo || x.end <= c.hi)
               && (c.lo <= x.start && x.end <= c.hi ==> HasObject(x))
               && forall i :: 0 <= i < |Rest(x, c.lo, c.hi)| ==> Clear(now.view, Rest(x, c.lo, c.hi)[i])
  {
    MiddlePart(c.s, c.lo, c.hi, c.k, c.m, j);
    TrimmedStep(c.s, c.lo, c.hi, c.k, c.m, j);
    assert WellFormed(c.s[j - 1]);
  }

  lemma ProgressStep(now: Shot, then_: Shot, elsewhere: map<nat, nat>, c: Plan, j: nat)
    requires c.k < j <= c.m && Disjoint(now.view)
    requires Progress(now, elsewhere, c, j) && TrimmedOne(now, then_, c.was[j - 1], c.lo, c.hi)
    ensures Progress(then_, elsewhere, c, j - 1)
  {
    var rest := Rest(c.s[j - 1], c.lo, c.hi);
    HandStep(now, then_, c.s, c.was, c.lo, c.hi, c.k, j);
    TrimmedStep(c.s, c.lo, c.hi, c.k, c.m, j);
    ErasedStep(c.s, c.lo, c.hi, c.k, c.m, j, c.pte);
    CountedStep(now.refs, elsewhere, now.view, c.s, c.k, j, c.lo, c.hi, c.k);
    if rest != [] {
      RestFits(c.s, c.lo, c.hi, c.k, c.m, j);
      RejoinedAt(now.view, then_.view, rest[0], c.k);
    }
  }

  // Areas k to m have left the list.
  ghost predicate Removing(list: seq<Ref>, held: seq<Ref>, was: seq<Ref>, k: nat, m: nat) {
    Reverses(held, was, k, m) && list == was[..k] + was[m..]
  }

  ghost predicate Reverses(held: seq<Ref>, was: seq<Ref>, k: nat, m: nat) {
    k <= m <= |was| && |held| == m - k && forall i :: 0 <= i < |held| ==> held[i] == was[m - 1 - i]
  }

  lemma ReversesStep(held: seq<Ref>, was: seq<Ref>, k: nat, m: nat)
    requires Reverses(held, was, k, m) && m < |was|
    ensures Reverses([was[m]] + held, was, k, m + 1)
  {
  }

  lemma Rejoin(list: seq<Ref>, k: nat)
    requires k <= |list|
    ensures list == list[..k] + list[k..]
  {
  }

  lemma DropNext(was: seq<Ref>, k: nat, m: nat)
    requires k <= m < |was|
    ensures Without(was[..k] + was[m..], k) == was[..k] + was[m + 1..]
  {
  }

  // How far down the page table entries have been erased
  function ErasedFrom(s: seq<Area>, lo: nat, hi: nat, m: nat, j: nat): nat
    requires j <= m <= |s|
  {
    if j == m then hi else if s[j].start < lo then lo else s[j].start
  }

  // An address that is mapped lies below the end of area i or not below the start of the next.
  lemma InGap(s: seq<Area>, i: nat, a: int)
    requires Disjoint(s) && i < |s| && Mapped(s, a) && a >= s[i].end
    ensures i + 1 < |s| && s[i + 1].start <= a
  {
    var j :| 0 <= j < |s| && Covers(s[j], a);
    assert i < j;
    assert i + 1 < j ==> s[i + 1].start < s[i + 1].end <= s[j].start;
  }

  lemma ErasedStep(s: seq<Area>, lo: nat, hi: nat, k: nat, m: nat, j: nat, pte: map<nat, nat>)
    requires Unsplit(s, lo, hi, k, m) && k < j <= m && PtesMapped(pte, s)
    ensures var x := s[j - 1];
            var from, to := if x.start < lo then lo else x.start, if x.end > hi then hi else x.end;
            Erased(Erased(pte, ErasedFrom(s, lo, hi, m, j), hi), from, to) == Erased(pte, ErasedFrom(s, lo, hi, m, j - 1), hi)
  {
    MiddlePart(s, lo, hi, k, m, j);
    var x, c := s[j - 1], ErasedFrom(s, lo, hi, m, j);
    forall a | a in pte && x.end <= a ensures a >= c {
      InGap(s, j - 1, a);
      if j < m {
        MiddlePart(s, lo, hi, k, m, j + 1);
      }
    }
    ErasedTwice(pte, c, hi, if x.start < lo then lo else x.start, if x.end > hi then hi else x.end);
  }

  lemma ErasedTwice(pte: map<nat, nat>, c: nat, hi: nat, from: nat, to: nat)
    requires from <= c && to <= hi && forall a :: a in pte && to <= a < hi ==> a >= c
    ensures Erased(Erased(pte, c, hi), from, to) == Erased(pte, from, hi)
  {
  }

  lemma ErasedEnd(s: seq<Area>, lo: nat, hi: nat, k: nat, m: nat, pte: map<nat, nat>)
    requires Unsplit(s, lo, hi, k, m) && PtesMapped(pte, s)
    ensures Erased(pte, ErasedFrom(s, lo, hi, m, k), hi) == Erased(pte, lo, hi)
  {
    forall a | a in pte && lo <= a ensures s[k].start <= a {
      if k > 0 {
        InGap(s, k - 1, a);
      } else {
        FirstLowest(s, a);
      }
    }
  }

  lemma TrimmedEnd(s: seq<Area>, lo: nat, hi: nat, k: nat, m: nat, pte: map<nat, nat>, now: seq<Area>)
    requires Unsplit(s, lo, hi, k, m) && PtesMapped(pte, s) && now == Trimmed(s, lo, hi, k, m, k)
    ensures Erased(pte, ErasedFrom(s, lo, hi, m, k), hi) == Erased(pte, lo, hi) && now == Cut(s, lo, hi)
            && now + s[k..k] == now
  {
    ErasedEnd(s, lo, hi, k, m, pte);
    CutMiddle(s, lo, hi, k, m);
    AreaLists.Regroup(s[..k], Below(s[k], lo), Beyond(s[m - 1], hi), s[m..]);
  }

  lemma FirstLowest(s: seq<Area>, a: int)
    requires Disjoint(s) && Mapped(s, a)
    ensures |s| > 0 && s[0].start <= a
  {
    var j :| 0 <= j < |s| && Covers(s[j], a);
    assert 0 < j ==> s[0].start < s[0].end <= s[j].start;
  }

  // The references of the listed areas and of those still in hand
  lemma CountedStep(refs: map<nat, nat>, elsewhere: map<nat, nat>, now: seq<Area>, s: seq<Area>, k: nat, j: nat,
                    lo: nat, hi: nat, p: nat)
    requires k < j <= |s| && Counted(refs, elsewhere, now + s[k..j]) && p <= |now|
    ensures var x := s[j - 1]; var rest := Rest(x, lo, hi);
            if rest == [] then HasObject(x) ==> Counted(Released(refs, x), elsewhere, now + s[k..j - 1])
            else Counted(refs, elsewhere, With(now, p, rest[0]) + s[k..j - 1])
  {
    var x := s[j - 1];
    var rest := Rest(x, lo, hi);
    assert s[k..j] == s[k..j - 1] + [x];
    assert [x][1..] == [];
    forall o: nat ensures Naming(now + s[k..j], o) == Naming(now, o) + Naming(s[k..j - 1], o) + Names(x, o) {
      NamingConcat(now, s[k..j], o);
      NamingConcat(s[k..j - 1], [x], o);
    }
    if rest == [] && HasObject(x) {
      forall o: nat ensures Naming(now + s[k..j - 1], o) == Naming(now, o) + Naming(s[k..j - 1], o) {
        NamingConcat(now, s[k..j - 1], o);
      }
      forall o: nat ensures RefOf(Released(refs, x), o) == RefOf(elsewhere, o) + Naming(now, o) + Naming(s[k..j - 1], o) {
        assert RefOf(refs, o) == RefOf(elsewhere, o) + Naming(now + s[k..j], o);
      }
      assert forall o: nat :: o in Released(refs, x) ==> RefOf(refs, o) > 0;
    } else if rest != [] {
      forall o: nat ensures Naming(With(now, p, rest[0]) + s[k..j - 1], o) == Naming(now + s[k..j], o) {
        NamingConcat(With(now, p, rest[0]), s[k..j - 1], o);
        NamingWith(now, p, rest[0], o);
      }
    }
  }

  // ---------- what mm_unmap makes of the list ----------

  // vma_create copies the bounds and the flags only.
  function Halved(s: seq<Area>, k: nat, lo: nat, hi: nat): seq<Area>
    requires k < |s| && s[k].start <= hi
  {
    s[..k] + [Area(s[k].start, lo, s[k].flags, None, 0), Resized(s[k], hi, s[k].end)] + s[k + 1..]
  }

  ghost predicate Unmapped(s: seq<Area>, s': seq<Area>, lo: nat, hi: nat) {
    lo <= hi
    && (forall k :: 0 <= k < |s| && Splits(s[k], lo, hi) ==> s' == Halved(s, k, lo, hi))
    && ((forall k :: 0 <= k < |s| ==> !Splits(s[k], lo, hi)) ==> s' == Cut(s, lo, hi))
  }

  lemma Shrunk(area: Areas, list: seq<Ref>, k: nat, y: Area)
    requires InOrderOf(area, list) && k < |list|
    requires area[list[k]].start <= y.start < y.end <= area[list[k]].end
    ensures InOrderOf(area[list[k] := y], list) && Deref(area[list[k] := y], list) == Deref(area, list)[k := y]
  {
    NoneTwice(area, list);
    var s, t := Deref(area, list), Deref(area, list)[k := y];
    forall i, j | 0 <= i < j < |t| ensures t[i].end <= t[j].start {
      assert s[i].end <= s[j].start;
    }
    assert Deref(area[list[k] := y], list) == t;
  }

  lemma HalvedFits(s: seq<Area>, k: nat, lo: nat, hi: nat)
    requires Disjoint(s) && k < |s| && lo < hi && Splits(s[k], lo, hi)
    ensures var t, n := s[k := Resized(s[k], hi, s[k].end)], Area(s[k].start, lo, s[k].flags, None, 0);
            FitsAt(t, n, k) && Clear(t, n) && With(t, k, n) == Halved(s, k, lo, hi)
  {
    var t, n := s[k := Resized(s[k], hi, s[k].end)], Area(s[k].start, lo, s[k].flags, None, 0);
    assert t == s[..k] + ([t[k]] + s[k + 1..]);
    LowPart(s, k);
    HighPart(s, s[k].end, k + 1);
    SlotIn(s[..k], [t[k]] + s[k + 1..], n);
    assert [n] + ([t[k]] + s[k + 1..]) == [n, t[k]] + s[k + 1..];
  }

  lemma HalvedPlace(s: seq<Area>, k: nat, lo: nat, hi: nat, p: nat)
    requires Disjoint(s) && k < |s| && lo < hi && Splits(s[k], lo, hi)
    requires FitsAt(s[k := Resized(s[k], hi, s[k].end)], Area(s[k].start, lo, s[k].flags, None, 0), p)
    ensures p == k
    ensures With(s[k := Resized(s[k], hi, s[k].end)], p, Area(s[k].start, lo, s[k].flags, None, 0)) == Halved(s, k, lo, hi)
  {
    var t, n := s[k := Resized(s[k], hi, s[k].end)], Area(s[k].start, lo, s[k].flags, None, 0);
    HalvedFits(s, k, lo, hi);
    PlaceIs(t, n, p);
    PlaceIs(t, n, k);
  }

  ghost predicate SplitsOne(s: seq<Area>, lo: nat, hi: nat) { exists k :: 0 <= k < |s| && Splits(s[k], lo, hi) }

  // An area that the range splits is the first that ends after its start.
  lemma NoSplit(s: seq<Area>, lo: nat, hi: nat, k: nat)
    requires Disjoint(s) && lo < hi && IsFirst(s, lo, k)
    ensures forall i :: 0 <= i < |s| && Splits(s[i], lo, hi) ==> i == k
  {
    forall i | 0 <= i < |s| && Splits(s[i], lo, hi) ensures i == k {
      FirstIfCovers(s, lo, i);
      FirstUnique(s, lo, i, k);
    }
  }

  lemma NothingThere(s: seq<Area>, lo: nat, hi: nat, k: nat, pte: map<nat, nat>)
    requires Disjoint(s) && lo < hi && IsFirst(s, lo, k) && (k < |s| ==> hi <= s[k].start) && PtesMapped(pte, s)
    ensures Unmapped(s, s, lo, hi) && Erased(pte, lo, hi) == pte
  {
    NoSplit(s, lo, hi, k);
    forall i | 0 <= i < |s| ensures s[i].end <= lo || s[i].start >= hi {
      assert k < i ==> s[k].start < s[k].end <= s[i].start;
    }
    CutOutside(s, lo, hi);
    forall a | a in pte ensures !(lo <= a < hi) {
      var i :| 0 <= i < |s| && Covers(s[i], a);
    }
  }

  lemma HalvedUnmaps(s: seq<Area>, k: nat, lo: nat, hi: nat)
    requires Disjoint(s) && lo < hi && k < |s| && Splits(s[k], lo, hi)
    ensures Unmapped(s, Halved(s, k, lo, hi), lo, hi)
  {
    FirstIfCovers(s, lo, k);
    NoSplit(s, lo, hi, k);
  }

  lemma Three<T>(s: seq<T>, k: nat)
    requires k < |s|
    ensures s == s[..k] + [s[k]] + s[k + 1..]
  {
  }

  lemma HalvedCounted(s: seq<Area>, k: nat, lo: nat, hi: nat, refs: map<nat, nat>, elsewhere: map<nat, nat>)
    requires k < |s| && s[k].start <= hi && Counted(refs, elsewhere, s)
    ensures Counted(refs, elsewhere, Halved(s, k, lo, hi))
  {
    var pair := [Area(s[k].start, lo, s[k].flags, None, 0), Resized(s[k], hi, s[k].end)];
    Three(s, k);
    forall o: nat ensures Naming(Halved(s, k, lo, hi), o) == Naming(s, o) {
      NamingConcat(s[..k] + pair, s[k + 1..], o);
      NamingConcat(s[..k], pair, o);
      NamingConcat(s[..k] + [s[k]], s[k + 1..], o);
      NamingConcat(s[..k], [s[k]], o);
      assert [s[k]][1..] == [] && pair[1..] == [pair[1]] && [pair[1]][1..] == [];
    }
  }

  lemma HalvedFlags(s: seq<Area>, k: nat, lo: nat, hi: nat, a: int, f: Flags)
    requires Disjoint(s) && k < |s| && lo < hi && Splits(s[k], lo, hi)
    ensures HasFlags(Halved(s, k, lo, hi), a, f) <==> HasFlags(s, a, f) && !(lo <= a < hi)
  {
    var pair := [Area(s[k].start, lo, s[k].flags, None, 0), Resized(s[k], hi, s[k].end)];
    var low, high := s[..k], s[k + 1..];
    Three(s, k);
    HasFlagsConcat(low + pair, high, a, f);
    HasFlagsConcat(low, pair, a, f);
    HasFlagsConcat(low + [s[k]], high, a, f);
    HasFlagsConcat(low, [s[k]], a, f);
    LowPart(s, k);
    assert forall i :: 0 <= i < |high| ==> s[k].end <= high[i].start;
    assert HasFlags([s[k]], a, f) <==> Covers([s[k]][0], a) && s[k].flags == f;
    assert HasFlags(pair, a, f) <==> (Covers(pair[0], a) || Covers(pair[1], a)) && s[k].flags == f;
  }

  // mm_unmap erases exactly the range from the map of addresses to flags.
  lemma UnmapErases(s: seq<Area>, s': seq<Area>, lo: nat, hi: nat, a: int, f: Flags)
    requires Disjoint(s) && lo < hi && Unmapped(s, s', lo, hi)
    ensures HasFlags(s', a, f) <==> HasFlags(s, a, f) && !(lo <= a < hi)
  {
    if k :| 0 <= k < |s| && Splits(s[k], lo, hi) {
      HalvedFlags(s, k, lo, hi, a, f);
    } else {
      CutErases(s, lo, hi, a, f);
    }
  }

  lemma HalvedWellFormed(s: seq<Area>, k: nat, lo: nat, hi: nat)
    requires AllWellFormed(s) && k < |s| && lo < hi && Splits(s[k], lo, hi) && lo % PGSIZE == 0 && hi % PGSIZE == 0
    ensures AllWellFormed(Halved(s, k, lo, hi))
  {
    var t := Halved(s, k, lo, hi);
    assert WellFormed(s[k]);
    assert WellFormed(Area(s[k].start, lo, s[k].flags, None, 0)) && WellFormed(Resized(s[k], hi, s[k].end));
    forall i | 0 <= i < |t| ensures WellFormed(t[i]) {
      assert i < k ==> WellFormed(s[i]);
      assert i > k + 1 ==> WellFormed(s[i - 1]);
    }
  }

  lemma SoundUnmapped(s: seq<Area>, s': seq<Area>, lo: nat, hi: nat, pte': map<nat, nat>, pte: map<nat, nat>)
    requires Disjoint(s) && lo < hi && lo % PGSIZE == 0 && hi % PGSIZE == 0 && Unmapped(s, s', lo, hi)
    requires AllWellFormed(s) && PtesMapped(pte, s) && pte' == Erased(pte, lo, hi)
    ensures AllWellFormed(s') && PtesMapped(pte', s')
  {
    if k :| 0 <= k < |s| && Splits(s[k], lo, hi) {
      HalvedWellFormed(s, k, lo, hi);
    } else {
      CutWellFormed(s, lo, hi);
    }
    forall a | a in pte' ensures Mapped(s', a) {
      var i :| 0 <= i < |s| && Covers(s[i], a);
      UnmapErases(s, s', lo, hi, a, s[i].flags);
    }
  }

  lemma RemovedView(area: Areas, was: seq<Ref>, list: seq<Ref>, s: seq<Area>, lo: nat, hi: nat, k: nat, m: nat)
    requires Live(area, was) && s == Deref(area, was) && k < m <= |s| && list == was[..k] + was[m..]
    ensures Live(area, list) && Deref(area, list) == Trimmed(s, lo, hi, k, m, m) == s[..k] + s[m..]
  {
    assert Deref(area, list) == s[..k] + s[m..];
  }

  lemma RemovedHeld(area: Areas, was: seq<Ref>, list: seq<Ref>, s: seq<Area>, k: nat, m: nat)
    requires Live(area, was) && s == Deref(area, was) && NoDup(was) && k < m <= |s| && list == was[..k] + was[m..]
    ensures InHand(area, list, s, was, k, m)
  {
  }

  lemma RemovedCounted(s: seq<Area>, k: nat, m: nat, refs: map<nat, nat>, elsewhere: map<nat, nat>)
    requires k <= m <= |s| && Counted(refs, elsewhere, s)
    ensures Counted(refs, elsewhere, s[..k] + s[m..] + s[k..m])
  {
    var t := s[..k] + s[m..];
    Split3(s, k, m);
    forall o: nat ensures Naming(t + s[k..m], o) == Naming(s, o) {
      NamingConcat(t, s[k..m], o);
      NamingConcat(s[..k], s[m..], o);
      NamingConcat(s[..k] + s[k..m], s[m..], o);
      NamingConcat(s[..k], s[k..m], o);
    }
  }

  lemma RemovedPlan(s: seq<Area>, was: seq<Ref>, lo: nat, hi: nat, k: nat, m: nat, pte: map<nat, nat>) returns (c: Plan)
    requires Disjoint(s) && lo < hi && k < m <= |s| && IsFirst(s, lo, k) && !Splits(s[k], lo, hi)
    requires s[m - 1].start < hi && (m < |s| ==> s[m].start >= hi) && lo % PGSIZE == 0 && hi % PGSIZE == 0
    requires AllWellFormed(s) && PtesMapped(pte, s) && DestroysBacked(s, lo, hi) && NoDup(was) && |was| == |s|
    ensures c == Cutting(s, was, lo, hi, k, m, pte) && pte == Erased(pte, ErasedFrom(s, lo, hi, m, m), hi)
  {
    NoSplit(s, lo, hi, k);
    c := Cutting(s, was, lo, hi, k, m, pte);
  }

  // ---------- shared memory ----------

  lemma HalvedIsCut(s: seq<Area>, k: nat, lo: nat, hi: nat)
    requires Disjoint(s) && k < |s| && lo < hi && Splits(s[k], lo, hi) && WellFormed(s[k]) && !s[k].flags.share
    ensures Halved(s, k, lo, hi) == Cut(s, lo, hi)
  {
    CutWithin(s, lo, hi, k);
    TwoPieces(s[..k], Below(s[k], lo)[0], Beyond(s[k], hi)[0], s[k + 1..]);
  }

  lemma TwoPieces(a: seq<Area>, b: Area, c: Area, d: seq<Area>)
    ensures a + [b] + [c] + d == a + [b, c] + d
  {
  }

  ghost predicate BackingKept(s: seq<Area>, s': seq<Area>, lo: nat, hi: nat) {
    forall a: int, o: nat, off: int {:trigger BackedBy(s', a, o, off)} ::
      BackedBy(s', a, o, off) <==> BackedBy(s, a, o, off) && !(lo <= a < hi)
  }

  // Every address outside the range keeps its object and offset exactly if no shared area is split.
  lemma UnmapKeepsBacking(s: seq<Area>, s': seq<Area>, lo: nat, hi: nat)
    requires Disjoint(s) && lo < hi && Unmapped(s, s', lo, hi) && AllWellFormed(s) && Backed(s)
    ensures BackingKept(s, s', lo, hi) <==> SparesShared(s, lo, hi)
  {
    if k :| 0 <= k < |s| && s[k].flags.share && Splits(s[k], lo, hi) {
      assert HasObject(s[k]);
      var a, o, off := s[k].start, s[k].shmem.value, s[k].off;
      assert Backs(s[k], a, o, off) && BackedBy(s, a, o, off);
      LostBelow(s, k, lo, hi, a, o, off);
    } else {
      CutIfSpared(s, s', lo, hi);
      forall a: int, o: nat, off: int ensures BackedBy(s', a, o, off) <==> BackedBy(s, a, o, off) && !(lo <= a < hi) {
        CutKeepsBacking(s, lo, hi, a, o, off);
      }
    }
  }

  // No address of the part below keeps its object.
  lemma LostBelow(s: seq<Area>, k: nat, lo: nat, hi: nat, a: int, o: nat, off: int)
    requires Disjoint(s) && k < |s| && lo < hi && Splits(s[k], lo, hi) && s[k].start <= a < lo
    ensures !BackedBy(Halved(s, k, lo, hi), a, o, off)
  {
    var n := Area(s[k].start, lo, s[k].flags, None, 0);
    var pair := [n, Resized(s[k], hi, s[k].end)];
    BackedByConcat(s[..k] + pair, s[k + 1..], a, o, off);
    BackedByConcat(s[..k], pair, a, o, off);
    LowPart(s, k);
    HighPart(s, s[k].end, k + 1);
  }

  // Every VM_SHARE area still has an object exactly if no shared area was split.
  lemma UnmapBacked(s: seq<Area>, s': seq<Area>, lo: nat, hi: nat)
    requires Disjoint(s) && lo < hi && lo % PGSIZE == 0 && hi % PGSIZE == 0 && Unmapped(s, s', lo, hi) && AllWellFormed(s)
    ensures Backed(s) ==> (Backed(s') <==> SparesShared(s, lo, hi))
  {
    if k :| 0 <= k < |s| && s[k].flags.share && Splits(s[k], lo, hi) {
      assert !HasObject(Halved(s, k, lo, hi)[k]);
    } else if Backed(s) {
      CutIfSpared(s, s', lo, hi);
      CutWellFormed(s, lo, hi);
    }
  }

  lemma CutIfSpared(s: seq<Area>, s': seq<Area>, lo: nat, hi: nat)
    requires Disjoint(s) && lo < hi && Unmapped(s, s', lo, hi) && AllWellFormed(s) && SparesShared(s, lo, hi)
    ensures s' == Cut(s, lo, hi)
  {
    if k :| 0 <= k < |s| && Splits(s[k], lo, hi) {
      assert WellFormed(s[k]);
      HalvedIsCut(s, k, lo, hi);
    }
  }

  // After a split of a shared area, unmapping the part below it, and mm_destroy, would dereference a null object.
  lemma SplitThenDestroy(s: seq<Area>, k: nat, lo: nat, hi: nat)
    requires Disjoint(s) && k < |s| && lo < hi && Splits(s[k], lo, hi) && s[k].flags.share
    ensures var s' := Halved(s, k, lo, hi); !Backed(s') && !DestroysBacked(s', s[k].start, lo)
  {
    assert !HasObject(Halved(s, k, lo, hi)[k]);
  }

  // Such a run: map an object of three pages, unmap the middle one; neither its first page nor the mm can go any more.
  lemma NullObjectRun(o: nat)
    ensures var x := Area(USERBASE, USERBASE + 3 * PGSIZE, Flags(true, true, false, false, true), Some(o), 0);
            var lo, hi := USERBASE + PGSIZE, USERBASE + 2 * PGSIZE;
            var s' := Halved([x], 0, lo, hi);
            WellFormed(x) && HasObject(x) && Unmapped([x], s', lo, hi) && !Backed(s') && !DestroysBacked(s', USERBASE, lo)
  {
    var x := Area(USERBASE, USERBASE + 3 * PGSIZE, Flags(true, true, false, false, true), Some(o), 0);
    HalvedUnmaps([x], 0, USERBASE + PGSIZE, USERBASE + 2 * PGSIZE);
    SplitThenDestroy([x], 0, USERBASE + PGSIZE, USERBASE + 2 * PGSIZE);
  }

  // ---------- what the list denotes, page by page ----------

  // mm_map and mm_map_shmem: the new area shows the object's pages from the first on.
  lemma MapDenoted(s: seq<Area>, area: map<Pages.Loc, Pages.Rights>, a: Pages.Asid, p: nat, x: Area)
    requires Denoted.Denotes(s, area, a) && WellFormed(x) && HasObject(x) && x.off == 0 && FitsAt(s, x, p)
    ensures Denoted.Denotes(With(s, p, x), Denoted.NewArea(area, a, x.start / PGSIZE, x.end / PGSIZE, x.flags, x.shmem), a)
  {
    assert Denoted.Fresh(x.start / PGSIZE, x.end / PGSIZE, x.flags, x.shmem) == x;
    Denoted.MapDenotes(s, area, a, p, x.start / PGSIZE, x.end / PGSIZE, x.flags, x.shmem);
  }

  // mm_unmap: the pages of the range go and every other page keeps its rights, object and offset, exactly if no shared
  // area is split.
  lemma UnmapDenoted(s: seq<Area>, s': seq<Area>, area: map<Pages.Loc, Pages.Rights>, a: Pages.Asid, lo: nat, hi: nat)
    requires Denoted.Denotes(s, area, a) && lo < hi && Unmapped(s, s', lo * PGSIZE, hi * PGSIZE)
    ensures Denoted.Denotes(s', Denoted.LessArea(area, a, lo, hi), a) <==> SparesShared(s, lo * PGSIZE, hi * PGSIZE)
  {
    UnmapBacked(s, s', lo * PGSIZE, hi * PGSIZE);
    if SparesShared(s, lo * PGSIZE, hi * PGSIZE) {
      CutIfSpared(s, s', lo * PGSIZE, hi * PGSIZE);
      Denoted.UnmapDenotes(s, area, a, lo, hi);
    }
  }

  lemma NextIsNew(area: Areas, list: seq<Ref>, i: nat)
    requires InOrderOf(area, list) && i < |list|
    ensures list[i] !in list[..i] && Sorted(list[..i], Starts(area))
  {
    NoneTwice(area, list);
    SortedByStart(area, list);
  }

  // In a sorted list the next element is inserted last.
  lemma AppendStable(area: Areas, list: seq<Ref>, i: nat, p: nat, s: seq<Ref>)
    requires InOrderOf(area, list) && i < |list| && StablyInserted(list[..i], s, list[i], p, Starts(area))
    ensures s == list[..i + 1]
  {
    var at := if p < i then list[..i][p] else list[i];
    SortedByStart(area, list);
    assert p == i;
  }

  // What linking r at position p does
  lemma Joined(area: Areas, list: seq<Ref>, r: Ref, p: nat, cache: Option<Ref>)
    requires InOrderOf(area, list) && r in area && area[r].start < area[r].end && FitsAt(Deref(area, list), area[r], p)
    requires cache.Some? ==> cache.value in list
    ensures AddAfter(list, if p > 0 then Some(list[p - 1]) else None, r) == With(list, p, r)
    ensures InOrderOf(area, With(list, p, r)) && |With(list, p, r)| == |list| + 1
    ensures Deref(area, With(list, p, r)) == With(Deref(area, list), p, area[r])
    ensures cache.Some? ==> cache.value in With(list, p, r)
  {
    NoneTwice(area, list);
    WithInOrder(area, list, r, p);
    if p > 0 {
      AddAfterAt(list, p, r);
    }
  }

  lemma CacheStays(list: seq<Ref>, p: nat, cache: Option<Ref>)
    requires p < |list| && (cache.Some? ==> cache.value in list)
    ensures cache.Some? && cache.value != list[p] ==> cache.value in Without(list, p)
  {
  }

  lemma NilNotInside(m: Mem, t: Tree, nil: Ref, root: Ref)
    requires Shape(m, Whole, t, nil, root)
    ensures nil !in InOrder(t)
  {
    InOrderNodes(t);
  }
}
