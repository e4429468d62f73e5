/**
 What the areas of an address space say about its pages: lists of areas as the kernel keeps them, against the map from
 pages to rights that the page tables are proved against.
 */
module AreaPages {
  import opened Options
  import opened Units
  import opened AreaLists
  import opened PageState

  function FirstPage(x: Area): nat { x.start / PGSIZE }

  function EndPage(x: Area): nat { x.end / PGSIZE }

  lemma PageCovered(x: Area, v: nat)
    requires WellFormed(x)
    ensures x.start == FirstPage(x) * PGSIZE && x.end == EndPage(x) * PGSIZE && FirstPage(x) < EndPage(x)
    ensures Covers(x, v * PGSIZE) <==> FirstPage(x) <= v < EndPage(x)
  {
  }

  // do_pgfault's offset: which page of its object lies behind page v of a shared area
  function EntryOf(x: Area, v: nat): Ent
    requires x.shmem.Some? && x.start <= v * PGSIZE
  {
    Ent(x.shmem.value, (v * PGSIZE - x.start + x.off) / PGSIZE)
  }

  // The assertion of shmem_get_entry: every page of the area lies below the length of the object.
  lemma EntryInObject(x: Area, v: nat, lens: map<nat, nat>)
    requires WellFormed(x) && x.flags.share && x.shmem.Some? && InObject(x, lens) && Covers(x, v * PGSIZE)
    ensures x.shmem.value in lens && v * PGSIZE - x.start + x.off < lens[x.shmem.value]
    ensures EntryOf(x, v).idx * PGSIZE == v * PGSIZE - x.start + x.off
  {
    LastPage(lens[x.shmem.value]);
    PageCovered(x, v);
  }

  lemma LastPage(len: nat)
    ensures PagesIn(len) * PGSIZE < len + PGSIZE
  {
  }

  lemma RoundedSum(n: nat, len: nat)
    ensures var t := n * PGSIZE + len + PGSIZE - 1; t - t % PGSIZE == (n + PagesIn(len)) * PGSIZE
    ensures len <= PagesIn(len) * PGSIZE
  {
  }

  // The 32-bit range that mm_map_shmem maps is that of the object's pages, wherever it lies in user space.
  lemma ShmemRange(addr: Address, len: Address)
    requires addr % PGSIZE == 0
    ensures var end, far := RoundUp(Add32(addr, len)), addr + PagesIn(len) * PGSIZE;
            (UserAccess(addr, end) <==> UserAccess(addr, far)) && (UserAccess(addr, far) ==> end == far)
  {
    LastPage(len);
    RoundedSum(addr / PGSIZE, len);
    assert addr == addr / PGSIZE * PGSIZE;
  }

  function RightsOf(x: Area, v: nat): Rights
    requires HasObject(x) && x.start <= v * PGSIZE
  {
    Rights(x.flags.read || x.flags.exec, x.flags.write, if x.flags.share then Shared(EntryOf(x, v)) else Private)
  }

  ghost predicate Describes(x: Area, area: map<Loc, Rights>, a: Asid, v: nat) {
    HasObject(x) && x.start <= v * PGSIZE && Loc(a, v) in area && area[Loc(a, v)] == RightsOf(x, v)
  }

  ghost predicate DenotesAt(s: seq<Area>, area: map<Loc, Rights>, a: Asid, v: nat) {
    (Loc(a, v) in area ==> Mapped(s, v * PGSIZE))
    && forall i :: 0 <= i < |s| && Covers(s[i], v * PGSIZE) ==> Describes(s[i], area, a, v)
  }

  ghost predicate Proper(s: seq<Area>) { Disjoint(s) && AllWellFormed(s) && Backed(s) }

  // The list says of every page of a exactly what the map says.
  ghost predicate Denotes(s: seq<Area>, area: map<Loc, Rights>, a: Asid) {
    Proper(s) && forall v: nat {:trigger DenotesAt(s, area, a, v)} :: DenotesAt(s, area, a, v)
  }

  // ---------- mapping ----------

  // Pages [lo, hi) now lie in an area; page v of it shows page v - lo of the object.
  function NewArea(area: map<Loc, Rights>, a: Asid, lo: nat, hi: nat, flags: Flags, obj: Option<nat>): map<Loc, Rights> {
    area + map v | lo <= v < hi ::
      Loc(a, v) := Rights(flags.read || flags.exec, flags.write, if obj.None? then Private else Shared(Ent(obj.value, v - lo)))
  }

  // Page l after pages [lo, hi) of a have been mapped: those read where the flags say read or execute, are written where
  // they say write, and are private or show the object from its first page on; no other page notices.
  ghost predicate PageMapped(area: map<Loc, Rights>, area': map<Loc, Rights>, a: Asid, lo: nat, hi: nat, flags: Flags,
                             obj: Option<nat>, l: Loc) {
    if l.a == a && lo <= l.v < hi then
      l in area' && (area'[l].read <==> flags.read || flags.exec) && (area'[l].write <==> flags.write)
      && match obj
         case None => area'[l].back == Private
         case Some(o) => area'[l].back == Shared(Ent(o, l.v - lo))
    else (l in area' <==> l in area) && (l in area ==> area'[l] == area[l])
  }

  ghost predicate PagesMapped(area: map<Loc, Rights>, area': map<Loc, Rights>, a: Asid, lo: nat, hi: nat, flags: Flags,
                              obj: Option<nat>) {
    forall l {:trigger PageMapped(area, area', a, lo, hi, flags, obj, l)} :: PageMapped(area, area', a, lo, hi, flags, obj, l)
  }

  lemma NewAreaMaps(area: map<Loc, Rights>, a: Asid, lo: nat, hi: nat, flags: Flags, obj: Option<nat>)
    ensures PagesMapped(area, NewArea(area, a, lo, hi, flags, obj), a, lo, hi, flags, obj)
  {
    forall l ensures PageMapped(area, NewArea(area, a, lo, hi, flags, obj), a, lo, hi, flags, obj, l) {
      assert l == Loc(l.a, l.v);
    }
  }

  // The area of mm_map, or of mm_map_shmem
  function Fresh(lo: nat, hi: nat, flags: Flags, obj: Option<nat>): Area {
    Area(lo * PGSIZE, hi * PGSIZE, flags.(share := obj.Some?), obj, 0)
  }

  lemma FreshRights(lo: nat, hi: nat, flags: Flags, obj: Option<nat>, v: nat)
    requires lo <= v < hi
    ensures var x := Fresh(lo, hi, flags, obj);
            HasObject(x) && Covers(x, v * PGSIZE)
            && RightsOf(x, v).read == (flags.read || flags.exec) && RightsOf(x, v).write == flags.write
            && RightsOf(x, v).back == if obj.None? then Private else Shared(Ent(obj.value, v - lo))
  {
  }

  lemma FreshProper(s: seq<Area>, p: nat, lo: nat, hi: nat, flags: Flags, obj: Option<nat>)
    requires Proper(s) && UserAccess(lo * PGSIZE, hi * PGSIZE) && FitsAt(s, Fresh(lo, hi, flags, obj), p)
    ensures Proper(With(s, p, Fresh(lo, hi, flags, obj)))
  {
    var x := Fresh(lo, hi, flags, obj);
    WithDisjoint(s, x, p);
    WithAt(s, p, x);
    assert WellFormed(x);
    forall i | 0 <= i < |With(s, p, x)| ensures WellFormed(With(s, p, x)[i]) && HasObject(With(s, p, x)[i]) {
      assert i != p ==> WellFormed(s[if i < p then i else i - 1]);
    }
  }

  lemma MapDenotes(s: seq<Area>, area: map<Loc, Rights>, a: Asid, p: nat, lo: nat, hi: nat, flags: Flags, obj: Option<nat>)
    requires Denotes(s, area, a) && UserAccess(lo * PGSIZE, hi * PGSIZE) && FitsAt(s, Fresh(lo, hi, flags, obj), p)
    ensures Denotes(With(s, p, Fresh(lo, hi, flags, obj)), NewArea(area, a, lo, hi, flags, obj), a)
  {
    var x := Fresh(lo, hi, flags, obj);
    var t, area' := With(s, p, x), NewArea(area, a, lo, hi, flags, obj);
    FreshProper(s, p, lo, hi, flags, obj);
    WithAt(s, p, x);
    forall v: nat ensures DenotesAt(t, area', a, v) {
      assert DenotesAt(s, area, a, v);
      MappedWith(s, p, x, v * PGSIZE);
      if lo <= v < hi {
        FreshRights(lo, hi, flags, obj, v);
      }
      forall i | 0 <= i < |t| && Covers(t[i], v * PGSIZE) ensures Describes(t[i], area', a, v) {
        if i != p {
          var j := if i < p then i else i - 1;
          assert t[i] == s[j];
          assert Describes(s[j], area, a, v);
        }
      }
    }
  }

  // ---------- unmapping ----------

  function LessArea(area: map<Loc, Rights>, a: Asid, lo: nat, hi: nat): map<Loc, Rights> {
    map l | l in area && !(l.a == a && lo <= l.v < hi) :: area[l]
  }

  // Two lists of which one area each covers a page with the same flags, object and offset give it the same rights.
  lemma SameRights(s: seq<Area>, t: seq<Area>, i: nat, v: nat, area: map<Loc, Rights>, a: Asid)
    requires Disjoint(t) && i < |s| && Covers(s[i], v * PGSIZE) && HasObject(s[i])
    requires HasFlags(t, v * PGSIZE, s[i].flags)
    requires s[i].flags.share ==> BackedBy(t, v * PGSIZE, s[i].shmem.value, v * PGSIZE - s[i].start + s[i].off)
    requires DenotesAt(t, area, a, v)
    ensures Describes(s[i], area, a, v)
  {
    var at := v * PGSIZE;
    var j :| 0 <= j < |t| && Covers(t[j], at) && t[j].flags == s[i].flags;
    assert Describes(t[j], area, a, v);
    if s[i].flags.share {
      var o, off := s[i].shmem.value, at - s[i].start + s[i].off;
      var k :| 0 <= k < |t| && Covers(t[k], at) && Backs(t[k], at, o, off);
      assert j == k;
    }
  }

  lemma CutCovers(s: seq<Area>, lo: nat, hi: nat, a: int)
    requires lo < hi
    ensures Mapped(Cut(s, lo, hi), a) <==> Mapped(s, a) && !(lo <= a < hi)
  {
    var t := Cut(s, lo, hi);
    if i :| 0 <= i < |t| && Covers(t[i], a) {
      assert HasFlags(t, a, t[i].flags);
      CutErases(s, lo, hi, a, t[i].flags);
    }
    if Mapped(s, a) && !(lo <= a < hi) {
      var i :| 0 <= i < |s| && Covers(s[i], a);
      assert HasFlags(s, a, s[i].flags);
      CutErases(s, lo, hi, a, s[i].flags);
    }
  }

  // Every piece left shows the same page of the same object at the same address as before.
  lemma CutDescribes(s: seq<Area>, area: map<Loc, Rights>, a: Asid, lo: nat, hi: nat, i: nat, v: nat)
    requires Denotes(s, area, a) && lo < hi && i < |Cut(s, lo, hi)| && Covers(Cut(s, lo, hi)[i], v * PGSIZE)
    requires HasObject(Cut(s, lo, hi)[i])
    ensures Describes(Cut(s, lo, hi)[i], area, a, v) && !(lo <= v * PGSIZE < hi)
  {
    var t, at := Cut(s, lo, hi), v * PGSIZE;
    var x := t[i];
    assert DenotesAt(s, area, a, v);
    assert HasFlags(t, at, x.flags);
    CutErases(s, lo, hi, at, x.flags);
    if x.flags.share {
      var o, off := x.shmem.value, at - x.start + x.off;
      assert Backs(x, at, o, off) && BackedBy(t, at, o, off);
      CutKeepsBacking(s, lo, hi, at, o, off);
    }
    SameRights(t, s, i, v, area, a);
  }

  lemma UnmapDenotes(s: seq<Area>, area: map<Loc, Rights>, a: Asid, lo: nat, hi: nat)
    requires Denotes(s, area, a) && lo < hi
    ensures Denotes(Cut(s, lo * PGSIZE, hi * PGSIZE), LessArea(area, a, lo, hi), a)
  {
    var t, area' := Cut(s, lo * PGSIZE, hi * PGSIZE), LessArea(area, a, lo, hi);
    CutDisjoint(s, lo * PGSIZE, hi * PGSIZE);
    CutWellFormed(s, lo * PGSIZE, hi * PGSIZE);
    forall v: nat ensures DenotesAt(t, area', a, v) {
      assert DenotesAt(s, area, a, v);
      CutCovers(s, lo * PGSIZE, hi * PGSIZE, v * PGSIZE);
      forall i | 0 <= i < |t| && Covers(t[i], v * PGSIZE) ensures Describes(t[i], area', a, v) {
        assert HasObject(t[i]);
        CutDescribes(s, area, a, lo * PGSIZE, hi * PGSIZE, i, v);
      }
    }
  }

  // ---------- other address spaces ----------

  function LessSpace(area: map<Loc, Rights>, a: Asid): map<Loc, Rights> {
    map l | l in area && l.a != a :: area[l]
  }

  ghost predicate SamePage(area: map<Loc, Rights>, area': map<Loc, Rights>, a: Asid, v: nat) {
    (Loc(a, v) in area' <==> Loc(a, v) in area) && (Loc(a, v) in area ==> area'[Loc(a, v)] == area[Loc(a, v)])
  }

  ghost predicate SameSpace(area: map<Loc, Rights>, area': map<Loc, Rights>, a: Asid) {
    forall v: nat {:trigger SamePage(area, area', a, v)} :: SamePage(area, area', a, v)
  }

  lemma SameDenotes(s: seq<Area>, area: map<Loc, Rights>, area': map<Loc, Rights>, a: Asid)
    requires Denotes(s, area, a) && SameSpace(area, area', a)
    ensures Denotes(s, area', a)
  {
    forall v: nat ensures DenotesAt(s, area', a, v) {
      assert DenotesAt(s, area, a, v) && SamePage(area, area', a, v);
      assert forall i :: 0 <= i < |s| && Covers(s[i], v * PGSIZE) ==> Describes(s[i], area, a, v);
    }
  }

  lemma EmptyDenotes(area: map<Loc, Rights>, a: Asid)
    ensures Denotes([], area, a) <==> forall l :: l in area ==> l.a != a
  {
    if Denotes([], area, a) {
      forall l | l in area ensures l.a != a {
        assert DenotesAt([], area, l.a, l.v) || l.a != a;
        assert l == Loc(l.a, l.v);
      }
    } else {
      var v: nat :| !DenotesAt([], area, a, v);
      assert Loc(a, v) in area;
    }
  }

  // ---------- looking up ----------

  // What find_vma finds decides about the whole page.
  lemma FoundPage(s: seq<Area>, area: map<Loc, Rights>, a: Asid, v: nat, off: nat, k: nat)
    requires Denotes(s, area, a) && off < PGSIZE && IsFirst(s, v * PGSIZE + off, k)
    ensures Loc(a, v) in area <==> k < |s| && s[k].start <= v * PGSIZE + off
    ensures Loc(a, v) in area ==> Covers(s[k], v * PGSIZE) && Describes(s[k], area, a, v)
  {
    var addr := v * PGSIZE + off;
    assert DenotesAt(s, area, a, v);
    if Mapped(s, v * PGSIZE) {
      var i :| 0 <= i < |s| && Covers(s[i], v * PGSIZE);
      assert WellFormed(s[i]);
      PageCovered(s[i], v);
      assert Covers(s[i], addr);
      FirstIfCovers(s, addr, i);
      FirstUnique(s, addr, i, k);
    }
    if k < |s| && s[k].start <= addr {
      assert WellFormed(s[k]);
      PageCovered(s[k], v);
      assert Covers(s[k], v * PGSIZE);
      assert Describes(s[k], area, a, v);
    }
  }

  lemma PagesOf(s: seq<Area>, area: map<Loc, Rights>, a: Asid, i: nat, v: nat)
    requires Denotes(s, area, a) && i < |s| && FirstPage(s[i]) <= v < EndPage(s[i])
    ensures Describes(s[i], area, a, v)
  {
    assert DenotesAt(s, area, a, v) && WellFormed(s[i]);
    PageCovered(s[i], v);
  }

  lemma PageHasArea(s: seq<Area>, area: map<Loc, Rights>, a: Asid, v: nat) returns (i: nat)
    requires Denotes(s, area, a) && Loc(a, v) in area
    ensures i < |s| && FirstPage(s[i]) <= v < EndPage(s[i]) && Describes(s[i], area, a, v)
  {
    assert DenotesAt(s, area, a, v);
    i :| 0 <= i < |s| && Covers(s[i], v * PGSIZE);
    assert WellFormed(s[i]);
    PageCovered(s[i], v);
  }

  // Areas occupy whole pages in ascending order.
  lemma PagesInOrder(s: seq<Area>)
    requires Proper(s)
    ensures forall i :: 0 <= i < |s| ==> FirstPage(s[i]) < EndPage(s[i])
    ensures forall i, j :: 0 <= i < j < |s| ==> EndPage(s[i]) <= FirstPage(s[j])
  {
    forall i | 0 <= i < |s| ensures FirstPage(s[i]) < EndPage(s[i]) {
      assert WellFormed(s[i]);
      PageCovered(s[i], 0);
    }
    forall i, j | 0 <= i < j < |s| ensures EndPage(s[i]) <= FirstPage(s[j]) {
      assert s[i].end <= s[j].start;
    }
  }
}
