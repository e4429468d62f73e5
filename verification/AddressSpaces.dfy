/**
 Address spaces over the page tables: map, unmap, fork and exit (kern/mm/vmm.c), and every run of them together with
 the loads and stores of the running program.
 */
module AddressSpaces {
  import opened Options
  import opened Units
  import opened AreaLists
  import opened PageState
  import opened AreaPages
  import opened PageTables

  // Where the source calls kmalloc the event says whether, or how often, there is room.
  datatype Event =
    | DoLoad(v: nat, off: nat, room: bool)
    | DoStore(v: nat, off: nat, x: int, room: bool)
    | DoCreate(obj: nat, len: Address, room: bool)
    | DoMap(a: Asid, lo: nat, hi: nat, flags: Flags, room: bool)
    | DoMapShmem(a: Asid, lo: nat, flags: Flags, obj: nat, room: bool)
    | DoUnmap(a: Asid, lo: nat, hi: nat, room: bool)
    | DoFork(to: Asid, from: Asid, arm: bool, times: nat)
    | DoExit(a: Asid)
    | DoSwitch(a: Asid)

  // What the caller or the program sees
  datatype Outcome = Value(r: Option<int>) | Result(ok: bool)

  // ---------- the areas of all address spaces ----------

  type Spaces = seq<seq<Area>>

  function AreasOf(vmas: Spaces, a: Asid): seq<Area> { if a < |vmas| then vmas[a] else [] }

  function Put(vmas: Spaces, a: Asid, s: seq<Area>): Spaces {
    if a < |vmas| then vmas[a := s] else vmas + seq(a - |vmas|, _ => []) + [s]
  }

  lemma PutAt(vmas: Spaces, a: Asid, s: seq<Area>, b: Asid)
    ensures AreasOf(Put(vmas, a, s), b) == if b == a then s else AreasOf(vmas, b)
  {
  }

  ghost predicate AllDenote(vmas: Spaces, area: map<Loc, Rights>) {
    forall a: Asid {:trigger AreasOf(vmas, a)} :: Denotes(AreasOf(vmas, a), area, a)
  }

  // Only the areas of a changed.
  lemma PutDenotes(vmas: Spaces, area: map<Loc, Rights>, a: Asid, s: seq<Area>, area': map<Loc, Rights>)
    requires AllDenote(vmas, area) && Denotes(s, area', a) && forall b: Asid :: b != a ==> SameSpace(area, area', b)
    ensures AllDenote(Put(vmas, a, s), area')
  {
    forall b: Asid ensures Denotes(AreasOf(Put(vmas, a, s), b), area', b) {
      PutAt(vmas, a, s, b);
      if b != a {
        assert Denotes(AreasOf(vmas, b), area, b);
        SameDenotes(AreasOf(vmas, b), area, area', b);
      }
    }
  }

  // Every area stays inside its object.
  ghost predicate AllBounded(vmas: Spaces, lens: map<nat, nat>) {
    forall a: Asid {:trigger AreasOf(vmas, a)} :: Bounded(AreasOf(vmas, a), lens)
  }

  lemma PutBounded(vmas: Spaces, a: Asid, s: seq<Area>, lens: map<nat, nat>)
    requires AllBounded(vmas, lens) && Bounded(s, lens)
    ensures AllBounded(Put(vmas, a, s), lens)
  {
    forall b: Asid ensures Bounded(AreasOf(Put(vmas, a, s), b), lens) {
      PutAt(vmas, a, s, b);
      assert Bounded(AreasOf(vmas, b), lens);
    }
  }

  // How many areas name o, in all address spaces
  function Total(vmas: Spaces, o: nat): nat {
    if vmas == [] then 0 else Naming(vmas[0], o) + Total(vmas[1..], o)
  }

  lemma {:induction false} TotalConcat(s: Spaces, t: Spaces, o: nat)
    ensures Total(s + t, o) == Total(s, o) + Total(t, o)
    decreases |s|
  {
    if s == [] {
      assert s + t == t;
    } else {
      assert (s + t)[1..] == s[1..] + t;
      TotalConcat(s[1..], t, o);
    }
  }

  lemma {:induction false} TotalNone(s: Spaces, o: nat)
    requires forall i :: 0 <= i < |s| ==> s[i] == []
    ensures Total(s, o) == 0
    decreases |s|
  {
    if s != [] {
      TotalNone(s[1..], o);
    }
  }

  lemma TotalOne(s: seq<Area>, o: nat)
    ensures Total([s], o) == Naming(s, o)
  {
    assert [s][1..] == [];
  }

  lemma {:induction false} TotalPut(vmas: Spaces, a: Asid, s: seq<Area>, o: nat)
    ensures Total(Put(vmas, a, s), o) + Naming(AreasOf(vmas, a), o) == Total(vmas, o) + Naming(s, o)
  {
    TotalOne(s, o);
    if a < |vmas| {
      var low, high := vmas[..a], vmas[a + 1..];
      assert Put(vmas, a, s) == low + [s] + high;
      assert vmas == low + [vmas[a]] + high;
      TotalConcat(low + [s], high, o);
      TotalConcat(low, [s], o);
      TotalConcat(low + [vmas[a]], high, o);
      TotalConcat(low, [vmas[a]], o);
      TotalOne(vmas[a], o);
    } else {
      var pad: Spaces := seq(a - |vmas|, _ => []);
      TotalConcat(vmas + pad, [s], o);
      TotalConcat(vmas, pad, o);
      TotalNone(pad, o);
    }
  }

  lemma {:induction false} NamingSome(s: seq<Area>, o: nat)
    ensures Naming(s, o) > 0 <==> exists i :: 0 <= i < |s| && Names(s[i], o) == 1
    decreases |s|
  {
    if s != [] {
      NamingSome(s[1..], o);
      assert forall i :: 0 < i < |s| ==> s[i] == s[1..][i - 1];
      if i :| 0 <= i < |s[1..]| && Names(s[1..][i], o) == 1 {
        assert s[i + 1] == s[1..][i];
      }
    }
  }

  lemma {:induction false} TotalSome(vmas: Spaces, o: nat)
    ensures Total(vmas, o) > 0 <==> exists a: Asid :: Naming(AreasOf(vmas, a), o) > 0
    decreases |vmas|
  {
    if vmas != [] {
      TotalSome(vmas[1..], o);
      assert forall a: Asid :: a > 0 ==> AreasOf(vmas, a) == AreasOf(vmas[1..], a - 1);
      assert AreasOf(vmas, 0) == vmas[0];
      if a: Asid :| Naming(AreasOf(vmas[1..], a), o) > 0 {
        assert AreasOf(vmas, a + 1) == AreasOf(vmas[1..], a);
      }
    } else {
      assert forall a: Asid :: AreasOf(vmas, a) == [];
    }
  }

  // ---------- who maps a shared memory object ----------

  predicate Maps(r: Rights, obj: nat) { r.back.Shared? && r.back.ent.obj == obj }

  ghost predicate Attached(area: map<Loc, Rights>, obj: nat) { exists l :: l in area && Maps(area[l], obj) }

  // An object is named by an area exactly if some page shows it.
  lemma NamedIsAttached(vmas: Spaces, area: map<Loc, Rights>, obj: nat)
    requires AllDenote(vmas, area)
    ensures Total(vmas, obj) > 0 <==> Attached(area, obj)
  {
    TotalSome(vmas, obj);
    if a: Asid :| Naming(AreasOf(vmas, a), obj) > 0 {
      var s := AreasOf(vmas, a);
      NamingSome(s, obj);
      var i :| 0 <= i < |s| && Names(s[i], obj) == 1;
      assert WellFormed(s[i]);
      PageCovered(s[i], 0);
      PagesOf(s, area, a, i, FirstPage(s[i]));
      assert Maps(area[Loc(a, FirstPage(s[i]))], obj);
    }
    if Attached(area, obj) {
      var l :| l in area && Maps(area[l], obj);
      var s := AreasOf(vmas, l.a);
      assert l == Loc(l.a, l.v);
      var i := PageHasArea(s, area, l.a, l.v);
      NamingSome(s, obj);
      assert Names(s[i], obj) == 1;
    }
  }

  // shmem_ref counts the areas of all spaces, and those of rest that have left their space but are not yet destroyed.
  ghost predicate Balanced(refs: map<nat, nat>, vmas: Spaces, rest: seq<Area>) {
    (forall o: nat {:trigger RefOf(refs, o)} :: RefOf(refs, o) == Total(vmas, o) + Naming(rest, o))
    && (forall o: nat {:trigger RefOf(refs, o)} :: o in refs ==> RefOf(refs, o) > 0)
  }

  // An object has chunks only while it has references.
  ghost predicate ChunksNamed(own: map<Owner, Page>, refs: map<nat, nat>) {
    forall o :: o in own && o.Chunk? ==> RefOf(refs, o.obj) > 0
  }

  // vma_destroy
  lemma BalancedTail(refs: map<nat, nat>, vmas: Spaces, s: seq<Area>)
    requires s != [] && HasObject(s[0]) && Balanced(refs, vmas, s)
    ensures Balanced(Released(refs, s[0]), vmas, s[1..])
  {
    var refs' := Released(refs, s[0]);
    forall q: nat ensures RefOf(refs', q) == Total(vmas, q) + Naming(s[1..], q) && (q in refs' ==> RefOf(refs', q) > 0) {
      assert RefOf(refs, q) == Total(vmas, q) + Naming(s, q);
    }
  }

  // An area list is replaced; what it no longer names is still to be released.
  lemma BalancedPut(refs: map<nat, nat>, vmas: Spaces, a: Asid, s: seq<Area>, rest: seq<Area>)
    requires Balanced(refs, vmas, []) && forall o: nat :: Naming(AreasOf(vmas, a), o) == Naming(s, o) + Naming(rest, o)
    ensures Balanced(refs, Put(vmas, a, s), rest)
  {
    forall o: nat ensures RefOf(refs, o) == Total(Put(vmas, a, s), o) + Naming(rest, o) && (o in refs ==> RefOf(refs, o) > 0) {
      TotalPut(vmas, a, s, o);
      assert RefOf(refs, o) == Total(vmas, o) + Naming([], o);
    }
  }

  // Areas have been added to a space, and their references with them.
  lemma BalancedMore(refs: map<nat, nat>, refs': map<nat, nat>, vmas: Spaces, a: Asid, s: seq<Area>)
    requires Balanced(refs, vmas, []) && Positive(refs')
    requires forall o: nat :: RefOf(refs', o) + Naming(AreasOf(vmas, a), o) == RefOf(refs, o) + Naming(s, o)
    ensures Balanced(refs', Put(vmas, a, s), [])
  {
    forall o: nat ensures RefOf(refs', o) == Total(Put(vmas, a, s), o) + Naming([], o) && (o in refs' ==> RefOf(refs', o) > 0) {
      TotalPut(vmas, a, s, o);
      assert RefOf(refs, o) == Total(vmas, o) + Naming([], o);
    }
  }

  // An object that no area names may go, or come.
  lemma OtherLens(vmas: Spaces, lens: map<nat, nat>, lens': map<nat, nat>, o: nat)
    requires AllBounded(vmas, lens) && Total(vmas, o) == 0
    requires forall q :: q in lens && q != o ==> q in lens' && lens'[q] == lens[q]
    ensures AllBounded(vmas, lens')
  {
    forall a: Asid ensures Bounded(AreasOf(vmas, a), lens') {
      var s := AreasOf(vmas, a);
      assert Bounded(s, lens);
      TotalSome(vmas, o);
      NamingSome(s, o);
      forall i | 0 <= i < |s| ensures InObject(s[i], lens') {
        assert InObject(s[i], lens) && Names(s[i], o) != 1;
      }
    }
  }

  // ---------- one step ----------

  // A moment of a run: the machine, the eager view of it, the areas of every space, and the references to shared memory
  // objects and their lengths
  datatype Moment = Moment(st: State, view: View, vmas: Spaces, refs: map<nat, nat>, lens: map<nat, nat>)

  // The page after the last that mm_map_shmem maps from lo on
  function ShmemEnd(lens: map<nat, nat>, obj: nat, lo: nat): nat
    requires obj in lens
  {
    lo + PagesIn(lens[obj])
  }

  // An object goes with its last reference.
  ghost predicate LensLeft(lens: map<nat, nat>, lens': map<nat, nat>, refs: map<nat, nat>, refs': map<nat, nat>) {
    (forall o :: o in lens' <==> o in lens && (RefOf(refs', o) > 0 || RefOf(refs, o) == 0))
    && (forall o :: o in lens' ==> lens'[o] == lens[o])
  }

  // The pages of objects that no area names any more are gone.
  ghost predicate Swept(v: View, v': View) {
    (forall e :: e in v'.shm <==> e in v.shm && Attached(v'.area, e.obj)) && (forall e :: e in v'.shm ==> v'.shm[e] == v.shm[e])
  }

  ghost predicate ExitedAt(v: View, v': View, a: Asid, l: Loc) {
    (l in v'.area <==> l in v.area && l.a != a) && (l in v'.area ==> v'.area[l] == v.area[l])
    && (l in v'.priv <==> l in v.priv && l.a != a) && (l in v'.priv ==> v'.priv[l] == v.priv[l])
    && (l in v'.att <==> l in v.att && l.a != a)
  }

  // Nothing of a remains; nobody else notices.
  ghost predicate Exited(v: View, v': View, a: Asid) {
    forall l {:trigger ExitedAt(v, v', a, l)} :: ExitedAt(v, v', a, l)
  }

  ghost predicate Vacant(area: map<Loc, Rights>, a: Asid, lo: nat, hi: nat) {
    forall x :: lo <= x < hi ==> Loc(a, x) !in area
  }

  // The new area stands at its place in the list.
  ghost predicate Placed(m: Moment, m': Moment, a: Asid, x: Area) {
    var s := AreasOf(m.vmas, a);
    exists p {:trigger FitsAt(s, x, p)} :: FitsAt(s, x, p) && m'.vmas == Put(m.vmas, a, With(s, p, x))
  }

  ghost predicate SplitsSome(s: seq<Area>, lo: nat, hi: nat) { exists i :: 0 <= i < |s| && Splits(s[i], lo, hi) }

  ghost predicate MapStep(m: Moment, m': Moment, a: Asid, lo: nat, hi: nat, flags: Flags, obj: Option<nat>, room: bool,
                          ok: bool) {
    (ok <==> room && UserAccess(lo * PGSIZE, hi * PGSIZE) && Vacant(m.view.area, a, lo, hi))
    && m'.st.free == m.st.free && m'.lens == m.lens
    && if ok then m'.view == m.view.(area := m'.view.area)
                  && PagesMapped(m.view.area, m'.view.area, a, lo, hi, flags, obj)
                  && Placed(m, m', a, Area(lo * PGSIZE, hi * PGSIZE, flags.(share := obj.Some?), obj, 0))
       else m' == m
  }

  ghost predicate UnmapStep(m: Moment, m': Moment, a: Asid, lo: nat, hi: nat, room: bool, ok: bool) {
    var s := AreasOf(m.vmas, a);
    (ok <==> UserAccess(lo * PGSIZE, hi * PGSIZE) && (room || !SplitsSome(s, lo * PGSIZE, hi * PGSIZE)))
    && if ok then m'.vmas == Put(m.vmas, a, Cut(s, lo * PGSIZE, hi * PGSIZE))
                  && (forall l :: l in m'.view.area <==> l in m.view.area && !InRange(l, a, lo, hi))
                  && (forall l :: l in m'.view.area ==> m'.view.area[l] == m.view.area[l])
                  && Erased(m.view, m'.view.(area := m.view.area, shm := m.view.shm), a, lo, hi) && Swept(m.view, m'.view)
                  && LensLeft(m.lens, m'.lens, m.refs, m'.refs)
       else m' == m
  }

  // The child's list after a fork that stopped early: there was no room for the next area, or no page for the next copy.
  ghost predicate Dupped(m: Moment, m': Moment, to: Asid, from: Asid, arm: bool, times: nat) {
    var s := AreasOf(m.vmas, from);
    exists k {:trigger s[k..]} :: 0 <= k <= |s| && m'.vmas == Put(m.vmas, to, s[k..])
                                  && ((k > 0 && |s| - k == times) || exists v: nat :: Stuck(m'.st, to, from, arm, v))
  }

  // Only where private pages are copied at once does a fork write to any page.
  ghost predicate DupStep(m: Moment, m': Moment, to: Asid, from: Asid, arm: bool, times: nat, ok: bool) {
    m'.lens == m.lens && (!arm ==> m'.st.mem == m.st.mem)
    && if to == from || AreasOf(m.vmas, to) != [] then !ok && m' == m
    else if ok then Forked(m.view, m'.view, to, from) && m'.vmas == Put(m.vmas, to, AreasOf(m.vmas, from))
    else PartlyForked(m.view, m'.view, to, from) && Dupped(m, m', to, from, arm, times)
  }

  // One step of the machine in which fork copies every page at once
  ghost predicate Next(m: Moment, m': Moment, e: Event, out: Outcome) {
    (if e.DoSwitch? then m'.st.cur == e.a else m'.st.cur == m.st.cur)
    && match e
       case DoLoad(p, off, room) =>
         out.Value? && m'.vmas == m.vmas && m'.lens == m.lens
         && Loads(m.view, m'.view, Loc(m.st.cur, p), off % PGSIZE, out.r, Starved(m.st, Loc(m.st.cur, p), room))
       case DoStore(p, off, x, room) =>
         out.Result? && m'.vmas == m.vmas && m'.lens == m.lens
         && Stores(m.view, m'.view, Loc(m.st.cur, p), off % PGSIZE, x, out.ok, Starved(m.st, Loc(m.st.cur, p), room))
       case DoCreate(obj, len, room) =>
         out == Result(room && obj !in m.lens) && m' == m.(lens := if out.ok then m.lens[obj := len] else m.lens)
       case DoMap(a, lo, hi, flags, room) => out.Result? && MapStep(m, m', a, lo, hi, flags, None, room, out.ok)
       case DoMapShmem(a, lo, flags, obj, room) =>
         if obj !in m.lens then out == Result(false) && m' == m
         else out.Result? && MapStep(m, m', a, lo, lo + PagesIn(m.lens[obj]), flags, Some(obj), room, out.ok)
       case DoUnmap(a, lo, hi, room) => out.Result? && UnmapStep(m, m', a, lo, hi, room, out.ok)
       case DoFork(to, from, arm, times) => out.Result? && DupStep(m, m', to, from, arm, times, out.ok)
       case DoExit(a) =>
         out == Result(true) && m'.vmas == Put(m.vmas, a, []) && Exited(m.view, m'.view, a) && Swept(m.view, m'.view)
         && LensLeft(m.lens, m'.lens, m.refs, m'.refs)
       case DoSwitch(_) => out == Result(true) && m'.vmas == m.vmas && m'.view == m.view && m'.lens == m.lens
  }

  // ---------- exit ----------

  // Page table number p covers one of the first i areas.
  ghost predicate Covered(s: seq<Area>, i: nat, p: nat)
    requires i <= |s|
  {
    exists j :: 0 <= j < i && FirstPage(s[j]) < EndPage(s[j]) && Pdx(FirstPage(s[j])) <= p <= Pdx(EndPage(s[j]) - 1)
  }

  ghost predicate TablesLeft(own: map<Owner, Page>, own': map<Owner, Page>, a: Asid, s: seq<Area>, i: nat)
    requires i <= |s|
  {
    (forall o :: o in own' <==> o in own && !(o.Table? && o.a == a && Covered(s, i, o.pdx)))
    && forall o :: o in own' ==> own'[o] == own[o]
  }

  lemma TablesStep(own: map<Owner, Page>, own1: map<Owner, Page>, own2: map<Owner, Page>, a: Asid, s: seq<Area>, i: nat)
    requires i < |s| && FirstPage(s[i]) < EndPage(s[i]) && TablesLeft(own, own1, a, s, i)
    requires TablesGone(own1, own2, a, Pdx(FirstPage(s[i])), Pdx(EndPage(s[i]) - 1) + 1)
    ensures TablesLeft(own, own2, a, s, i + 1)
  {
    forall p: nat ensures Covered(s, i + 1, p) <==> Covered(s, i, p) || Pdx(FirstPage(s[i])) <= p <= Pdx(EndPage(s[i]) - 1) {
      if Covered(s, i, p) {
        var j :| 0 <= j < i && FirstPage(s[j]) < EndPage(s[j]) && Pdx(FirstPage(s[j])) <= p <= Pdx(EndPage(s[j]) - 1);
        assert 0 <= j < i + 1;
      }
    }
  }

  // Page table p of a lies under an area.
  ghost predicate Under(area: map<Loc, Rights>, a: Asid, p: nat) { exists v: nat :: Loc(a, v) in area && Pdx(v) == p }

  lemma CoveredIsUnder(s: seq<Area>, area: map<Loc, Rights>, a: Asid, p: nat)
    requires Denotes(s, area, a)
    ensures Covered(s, |s|, p) <==> Under(area, a, p)
  {
    PagesInOrder(s);
    if Covered(s, |s|, p) {
      var j :| 0 <= j < |s| && FirstPage(s[j]) < EndPage(s[j]) && Pdx(FirstPage(s[j])) <= p <= Pdx(EndPage(s[j]) - 1);
      var v := if FirstPage(s[j]) < p * 1024 then p * 1024 else FirstPage(s[j]);
      PagesOf(s, area, a, j, v);
      assert Loc(a, v) in area && Pdx(v) == p;
    }
    if Under(area, a, p) {
      var v: nat :| Loc(a, v) in area && Pdx(v) == p;
      var j := PageHasArea(s, area, a, v);
      assert Pdx(FirstPage(s[j])) <= p <= Pdx(EndPage(s[j]) - 1);
    }
  }

  ghost function LastEnd(s: seq<Area>, i: nat): nat
    requires i <= |s|
  {
    if i == 0 then 0 else EndPage(s[i - 1])
  }

  // Unmapping area after area erases everything below the last one.
  lemma EraseStep(vmas: seq<Area>, s: State, b: Books, v0: View, v: View, v': View, a: Asid, i: nat)
    requires Denotes(vmas, s.area, a) && Inv(s, b) && Refines(s, v0) && i < |vmas|
    requires Erased(v0, v, a, 0, LastEnd(vmas, i)) && Erased(v, v', a, FirstPage(vmas[i]), EndPage(vmas[i]))
    ensures Erased(v0, v', a, 0, LastEnd(vmas, i + 1))
  {
    PagesInOrder(vmas);
    var m, hi := LastEnd(vmas, i), EndPage(vmas[i]);
    forall l ensures ErasedAt(v0, v', a, 0, hi, l) {
      assert ErasedAt(v0, v, a, 0, m, l) && ErasedAt(v, v', a, FirstPage(vmas[i]), hi, l);
      if l.a == a && m <= l.v < FirstPage(vmas[i]) {
        GapIsEmpty(vmas, s, b, v0, a, l.v, i);
        assert l == Loc(a, l.v);
      }
    }
  }

  lemma EraseAll(vmas: seq<Area>, s: State, b: Books, v0: View, v: View, a: Asid, l: Loc)
    requires Denotes(vmas, s.area, a) && Inv(s, b) && Refines(s, v0) && Erased(v0, v, a, 0, LastEnd(vmas, |vmas|))
    ensures l.a == a ==> l !in v.priv && l !in v.att
    ensures l.a != a ==> (l in v.priv <==> l in v0.priv) && (l in v.priv ==> v.priv[l] == v0.priv[l])
    ensures l.a != a ==> (l in v.att <==> l in v0.att)
  {
    assert ErasedAt(v0, v, a, 0, LastEnd(vmas, |vmas|), l);
    if l.a == a && l.v >= LastEnd(vmas, |vmas|) {
      GapIsEmpty(vmas, s, b, v0, a, l.v, |vmas|);
      assert l == Loc(a, l.v);
    }
  }

  // ---------- map and unmap ----------

  // No area overlaps the new one exactly if none of its pages lies in an area.
  lemma ClearIsVacant(s: seq<Area>, area: map<Loc, Rights>, a: Asid, lo: nat, hi: nat, flags: Flags, obj: Option<nat>)
    requires Denotes(s, area, a) && lo < hi
    ensures Clear(s, Fresh(lo, hi, flags, obj)) <==> Vacant(area, a, lo, hi)
  {
    var x := Fresh(lo, hi, flags, obj);
    if v :| lo <= v < hi && Loc(a, v) in area {
      var i := PageHasArea(s, area, a, v);
      assert WellFormed(s[i]);
      PageCovered(s[i], v);
      assert Clash(s[i], x);
    }
    if i :| 0 <= i < |s| && Clash(s[i], x) {
      assert WellFormed(s[i]);
      PageCovered(s[i], 0);
      var v := if FirstPage(s[i]) < lo then lo else FirstPage(s[i]);
      PagesOf(s, area, a, i, v);
      assert lo <= v < hi;
    }
  }

  // mm_unmap looks for a split at the one area that find_vma finds.
  lemma SplitIsFirst(s: seq<Area>, lo: nat, hi: nat, k: nat)
    requires Disjoint(s) && lo < hi && IsFirst(s, lo, k)
    ensures SplitsSome(s, lo, hi) <==> k < |s| && Splits(s[k], lo, hi)
  {
    if i :| 0 <= i < |s| && Splits(s[i], lo, hi) {
      FirstIfCovers(s, lo, i);
      FirstUnique(s, lo, i, k);
    }
  }

  lemma NewAreaElsewhere(area: map<Loc, Rights>, a: Asid, lo: nat, hi: nat, flags: Flags, obj: Option<nat>, b: Asid)
    requires b != a
    ensures SameSpace(area, NewArea(area, a, lo, hi, flags, obj), b)
    ensures SameSpace(area, LessArea(area, a, lo, hi), b) && SameSpace(area, LessSpace(area, a), b)
  {
  }

  // shmem_ref_inc, if there is an object
  function RefsWith(refs: map<nat, nat>, obj: Option<nat>): map<nat, nat> { if obj.Some? then RefInc(refs, obj.value) else refs }

  lemma MapBalanced(refs: map<nat, nat>, vmas: Spaces, a: Asid, p: nat, lo: nat, hi: nat, flags: Flags, obj: Option<nat>)
    requires Balanced(refs, vmas, []) && p <= |AreasOf(vmas, a)|
    ensures Balanced(RefsWith(refs, obj), Put(vmas, a, With(AreasOf(vmas, a), p, Fresh(lo, hi, flags, obj))), [])
  {
    var refs' := RefsWith(refs, obj);
    var s, x := AreasOf(vmas, a), Fresh(lo, hi, flags, obj);
    forall o: nat ensures RefOf(refs', o) + Naming(s, o) == RefOf(refs, o) + Naming(With(s, p, x), o) {
      NamingWith(s, p, x, o);
    }
    forall o | o in refs' ensures refs'[o] > 0 {
      assert o in refs ==> RefOf(refs, o) > 0;
    }
    BalancedMore(refs, refs', vmas, a, With(s, p, x));
  }

  // ---------- what holds at every moment ----------

  // Each present entry of a shared area names the page of its object that the offset computation gives.
  ghost predicate SharedAt(m: Moment, a: Asid, x: Area, v: nat) {
    x.flags.share && Covers(x, v * PGSIZE) && Loc(a, v) in m.st.pte ==>
      x.shmem.Some? && EntryOf(x, v) in m.st.ent && m.st.pte[Loc(a, v)].page == m.st.ent[EntryOf(x, v)]
  }

  ghost predicate SharedBound(m: Moment) {
    forall a: Asid, i: nat, v: nat :: i < |AreasOf(m.vmas, a)| ==> SharedAt(m, a, AreasOf(m.vmas, a)[i], v)
  }

  // shmem_ref is the number of areas that name the object, in all spaces.
  ghost predicate RefsCounted(m: Moment) { forall o: nat {:trigger Total(m.vmas, o)} :: RefOf(m.refs, o) == Total(m.vmas, o) }

  ghost predicate Owned(s: State, p: Page) { exists o :: o in s.own && s.own[o] == p }

  // A page is free exactly if no table, entry or owner names it; a page not owned outright counts those that do.
  ghost predicate PageCounted(s: State, p: Page) {
    (p in s.free <==> PtesNaming(s, p) == {} && EntriesNaming(s, p) == {} && !Owned(s, p))
    && (!Owned(s, p) ==> p in s.ref && s.ref[p] == |PtesNaming(s, p)| + |EntriesNaming(s, p)|)
  }

  ghost predicate Exact(m: Moment) { SharedBound(m) && WithinObjects(m) && RefsCounted(m) && PagesCounted(m) }

  ghost predicate PagesCounted(m: Moment) { forall p :: p in m.st.pages ==> PageCounted(m.st, p) }

  // No page of a shared area lies beyond the end of its object: the assertion of shmem_get_entry.
  ghost predicate WithinObjects(m: Moment) {
    forall a: Asid, i: nat, v: nat :: i < |AreasOf(m.vmas, a)| ==> WithinAt(m, AreasOf(m.vmas, a)[i], v)
  }

  ghost predicate WithinAt(m: Moment, x: Area, v: nat) {
    x.flags.share && Covers(x, v * PGSIZE) ==>
      x.shmem.Some? && x.shmem.value in m.lens && EntryOf(x, v).idx * PGSIZE < m.lens[x.shmem.value]
  }

  lemma BoundedPages(m: Moment)
    requires AllDenote(m.vmas, m.st.area) && AllBounded(m.vmas, m.lens)
    ensures WithinObjects(m)
  {
    forall a: Asid, i: nat, v: nat | i < |AreasOf(m.vmas, a)| ensures WithinAt(m, AreasOf(m.vmas, a)[i], v) {
      var s := AreasOf(m.vmas, a);
      assert Denotes(s, m.st.area, a) && Bounded(s, m.lens);
      assert WellFormed(s[i]) && HasObject(s[i]) && InObject(s[i], m.lens);
      if s[i].flags.share && Covers(s[i], v * PGSIZE) {
        EntryInObject(s[i], v, m.lens);
      }
    }
  }

  lemma SharedPages(m: Moment, b: Books)
    requires Inv(m.st, b) && AllDenote(m.vmas, m.st.area)
    ensures SharedBound(m)
  {
    forall a: Asid, i: nat, v: nat | i < |AreasOf(m.vmas, a)| ensures SharedAt(m, a, AreasOf(m.vmas, a)[i], v) {
      var s, l := AreasOf(m.vmas, a), Loc(a, v);
      if s[i].flags.share && Covers(s[i], v * PGSIZE) && l in m.st.pte {
        assert DenotesAt(s, m.st.area, a, v);
        assert Describes(s[i], m.st.area, a, v);
        assert PteOk(m.st, b, l) && PageOk(m.st, b, m.st.pte[l].page);
      }
    }
  }

  lemma CountedPages(m: Moment, b: Books)
    requires Inv(m.st, b) && Quiet(b)
    ensures PagesCounted(m)
  {
    forall p | p in m.st.pages ensures PageCounted(m.st, p) {
      FreeIsRest(m.st, b, p);
      assert forall l :: l in PtesNaming(m.st, p) <==> l in m.st.pte && m.st.pte[l].page == p;
      assert forall e :: e in EntriesNaming(m.st, p) <==> e in m.st.ent && m.st.ent[e] == p;
      if !Owned(m.st, p) {
        CountIsUse(m.st, b, p);
      }
    }
  }

  lemma CountedRefs(m: Moment)
    requires Balanced(m.refs, m.vmas, [])
    ensures RefsCounted(m)
  {
    forall o: nat ensures RefOf(m.refs, o) == Total(m.vmas, o) {
      assert RefOf(m.refs, o) == Total(m.vmas, o) + Naming([], o);
    }
  }

  // ---------- releasing areas ----------

  // Of the objects' pages exactly those with references remain.
  ghost predicate Referenced(v: View, v': View, refs: map<nat, nat>) {
    (forall e :: e in v'.shm <==> e in v.shm && RefOf(refs, e.obj) > 0) && (forall e :: e in v'.shm ==> v'.shm[e] == v.shm[e])
  }

  lemma AllReferenced(s: State, b: Books, v: View, refs: map<nat, nat>)
    requires Inv(s, b) && Refines(s, v) && ChunksNamed(s.own, refs)
    ensures Referenced(v, v, refs)
  {
    forall e | e in v.shm ensures RefOf(refs, e.obj) > 0 {
      assert ShowsEnt(s, v, e) && EntOk(s, b, e);
    }
  }

  lemma ReferencedIsSwept(v: View, v': View, refs: map<nat, nat>, vmas: Spaces)
    requires Referenced(v, v', refs) && Balanced(refs, vmas, []) && AllDenote(vmas, v'.area)
    ensures Swept(v, v')
  {
    forall e | e in v.shm ensures e in v'.shm <==> Attached(v'.area, e.obj) {
      NamedIsAttached(vmas, v'.area, e.obj);
      assert RefOf(refs, e.obj) == Total(vmas, e.obj) + Naming([], e.obj);
    }
  }

  // Page tables stay as they are.
  ghost predicate TablesKept(own: map<Owner, Page>, own': map<Owner, Page>) {
    (forall o :: o in own' ==> o in own && own'[o] == own[o]) && (forall o :: o in own && o.Table? ==> o in own')
  }

  lemma NoneMaps(vmas: Spaces, area: map<Loc, Rights>, refs: map<nat, nat>, rest: seq<Area>, obj: nat)
    requires AllDenote(vmas, area) && Balanced(refs, vmas, rest) && RefOf(refs, obj) == 0
    ensures forall l :: l in area ==> area[l].back.Private? || area[l].back.ent.obj != obj
  {
    NamedIsAttached(vmas, area, obj);
    forall l | l in area ensures !Maps(area[l], obj) {
      assert !Attached(area, obj);
    }
  }

  // Whatever the order of the steps, the outcome is the same.
  ghost predicate OrderFree(s: State, s': State, done: seq<Step>) {
    forall t {:trigger Applied(s, t)} :: multiset(t) == multiset(done) ==> Applied(s, t) == s'
  }

  lemma OneOutcome(s: State, s': State, done: seq<Step>)
    requires OwnersApart(s) && Path(s, s', done)
    ensures OrderFree(s, s', done)
  {
    forall t | multiset(t) == multiset(done) ensures Applied(s, t) == s' {
      AnyOrder(s, done, t);
    }
  }

  lemma LensAll(lens: map<nat, nat>, refs: map<nat, nat>)
    ensures LensLeft(lens, lens, refs, refs)
  {
  }

  lemma LensTwice(l0: map<nat, nat>, l1: map<nat, nat>, l2: map<nat, nat>,
                  r0: map<nat, nat>, r1: map<nat, nat>, r2: map<nat, nat>)
    requires LensLeft(l0, l1, r0, r1) && LensLeft(l1, l2, r1, r2)
    requires forall o: nat :: RefOf(r2, o) <= RefOf(r1, o) <= RefOf(r0, o)
    ensures LensLeft(l0, l2, r0, r2)
  {
  }

  // The area being destroyed held a reference.
  lemma NamedOnce(refs: map<nat, nat>, vmas: Spaces, x: Area, rest: seq<Area>)
    requires Balanced(refs, vmas, [x] + rest) && x.flags.share && x.shmem.Some?
    ensures RefOf(refs, x.shmem.value) > 0
  {
    var o := x.shmem.value;
    assert RefOf(refs, o) == Total(vmas, o) + Naming([x] + rest, o);
    NamingSome([x] + rest, o);
    assert Names(([x] + rest)[0], o) == 1;
  }

  // What remains when the last area of an object is destroyed
  lemma LastReference(v: View, v': View, refs: map<nat, nat>, x: Area, own: map<Owner, Page>, own': map<Owner, Page>,
                      lens: map<nat, nat>)
    requires x.flags.share && x.shmem.Some? && Referenced(v, v, refs) && ChunksNamed(own, refs)
    requires RefOf(Released(refs, x), x.shmem.value) == 0 && RefOf(refs, x.shmem.value) > 0
    requires ObjectGone(v.shm, v'.shm, x.shmem.value) && ChunksLeft(own, own', x.shmem.value, {})
    ensures Referenced(v, v', Released(refs, x)) && ChunksNamed(own', Released(refs, x)) && TablesKept(own, own')
    ensures LensLeft(lens, lens - {x.shmem.value}, refs, Released(refs, x))
  {
  }

  // Nothing goes while the object has other references.
  lemma StillReferenced(v: View, refs: map<nat, nat>, x: Area, own: map<Owner, Page>, lens: map<nat, nat>)
    requires HasObject(x) && Referenced(v, v, refs) && ChunksNamed(own, refs)
    requires x.flags.share ==> RefOf(Released(refs, x), x.shmem.value) > 0
    ensures Referenced(v, v, Released(refs, x)) && ChunksNamed(own, Released(refs, x))
    ensures LensLeft(lens, lens, refs, Released(refs, x))
  {
  }

  class System {
    const k: Kernel
    var vmas: Spaces

    constructor (mem: map<Page, Data>)
      ensures Ok() && vmas == [] && fresh(k) && k.eager == View(map[], map[], map[], {})
      ensures k.st.free == k.st.pages == mem.Keys && k.st.cur == 0 && k.lens == map[]
    {
      k := new Kernel(mem);
      vmas := [];
      new;
      forall a: Asid ensures Denotes(AreasOf(vmas, a), k.st.area, a) {
        EmptyDenotes(k.st.area, a);
      }
    }

    ghost predicate Ok()
      reads this, k
    {
      k.Ok() && Quiet(k.books) && AllDenote(vmas, k.st.area) && AllBounded(vmas, k.lens)
      && Balanced(k.refs, vmas, []) && ChunksNamed(k.st.own, k.refs)
    }

    ghost function Now(): Moment
      reads this, k
    {
      Moment(k.st, k.eager, vmas, k.refs, k.lens)
    }

    // shmem_create
    method ShmemCreate(obj: nat, len: Address, room: bool) returns (ok: bool)
      requires Ok()
      modifies k`lens
      ensures Ok() && Next(old(Now()), Now(), DoCreate(obj, len, room), Result(ok))
    {
      if !room || obj in k.lens {
        return false;
      }
      Unnamed(obj);
      OtherLens(vmas, k.lens, k.lens[obj := len], obj);
      k.lens := k.lens[obj := len];
      return true;
    }

    // Areas name only objects that exist.
    lemma Unnamed(obj: nat)
      requires Ok() && obj !in k.lens
      ensures Total(vmas, obj) == 0
    {
      TotalSome(vmas, obj);
      forall a: Asid ensures Naming(AreasOf(vmas, a), obj) == 0 {
        var s := AreasOf(vmas, a);
        assert Bounded(s, k.lens);
        NamingSome(s, obj);
        assert forall i :: 0 <= i < |s| ==> InObject(s[i], k.lens);
      }
    }

    // mm_map_shmem: all pages of the object
    method MmMapShmem(a: Asid, lo: nat, flags: Flags, obj: nat, room: bool) returns (ok: bool)
      requires Ok()
      modifies this, k
      ensures Ok() && Next(old(Now()), Now(), DoMapShmem(a, lo, flags, obj, room), Result(ok))
    {
      if obj !in k.lens {
        return false;
      }
      ok := MmMap(a, lo, ShmemEnd(k.lens, obj, lo), flags, Some(obj), room);
    }

    // mm_map on page numbers; with an object, for mm_map_shmem
    method MmMap(a: Asid, lo: nat, hi: nat, flags: Flags, obj: Option<nat>, room: bool) returns (ok: bool)
      requires Ok() && (obj.Some? ==> obj.value in k.lens && hi == ShmemEnd(k.lens, obj.value, lo))
      modifies this, k
      ensures Ok() && MapStep(old(Now()), Now(), a, lo, hi, flags, obj, room, ok) && k.st.cur == old(k.st).cur
    {
      var x, s := Fresh(lo, hi, flags, obj), AreasOf(vmas, a);
      if !UserAccess(x.start, x.end) {
        return false;
      }
      assert Denotes(s, k.st.area, a);
      var p := FindFirst(s, x.start);
      ClearByFirst(s, x, p);
      ClearIsVacant(s, k.st.area, a, lo, hi, flags, obj);
      if (p < |s| && x.end > s[p].start) || !room {
        return false;
      }
      FitsBeforeFirst(s, x, p);
      NewAreaMaps(k.eager.area, a, lo, hi, flags, obj);
      PlaceArea(a, p, lo, hi, flags, obj);
      assert FitsAt(s, x, p);
      return true;
    }

    // insert_vma_struct, and shmem_ref_inc for a shared area
    method PlaceArea(a: Asid, p: nat, lo: nat, hi: nat, flags: Flags, obj: Option<nat>)
      requires Ok() && UserAccess(lo * PGSIZE, hi * PGSIZE) && FitsAt(AreasOf(vmas, a), Fresh(lo, hi, flags, obj), p)
      requires Vacant(k.st.area, a, lo, hi) && (obj.Some? ==> obj.value in k.lens && hi == ShmemEnd(k.lens, obj.value, lo))
      modifies this, k
      ensures Ok() && k.lens == old(k.lens)
      ensures vmas == Put(old(vmas), a, With(old(AreasOf(vmas, a)), p, Fresh(lo, hi, flags, obj)))
      ensures k.st == old(k.st).(area := NewArea(old(k.st).area, a, lo, hi, flags, obj))
      ensures k.eager == old(k.eager).(area := NewArea(old(k.eager).area, a, lo, hi, flags, obj))
    {
      var s := AreasOf(vmas, a);
      ghost var was := k.st.area;
      assert Bounded(s, k.lens);
      forall l | l in k.st.pte ensures !(l.a == a && lo <= l.v < hi) {
        PresentInArea(k.st, k.books, l);
        assert l == Loc(l.a, l.v);
      }
      MapDenotes(s, k.st.area, a, p, lo, hi, flags, obj);
      MapBalanced(k.refs, vmas, a, p, lo, hi, flags, obj);
      WithBounded(s, p, Fresh(lo, hi, flags, obj), k.lens);
      PutBounded(vmas, a, With(s, p, Fresh(lo, hi, flags, obj)), k.lens);
      k.SetArea(NewArea(k.st.area, a, lo, hi, flags, obj));
      forall b: Asid | b != a ensures SameSpace(was, k.st.area, b) {
        NewAreaElsewhere(was, a, lo, hi, flags, obj, b);
      }
      PutDenotes(vmas, was, a, With(s, p, Fresh(lo, hi, flags, obj)), k.st.area);
      k.refs := RefsWith(k.refs, obj);
      vmas := Put(vmas, a, With(s, p, Fresh(lo, hi, flags, obj)));
    }

    // vma_destroy of an area that has left its list; the object goes with the last area that names it.
    method VmaDestroy(x: Area, ghost rest: seq<Area>) returns (ghost done: seq<Step>)
      requires k.Ok() && Quiet(k.books) && AllDenote(vmas, k.st.area) && AllBounded(vmas, k.lens) && ChunksNamed(k.st.own, k.refs)
      requires Balanced(k.refs, vmas, [x] + rest) && HasObject(x)
      modifies k`st, k`books, k`eager, k`refs, k`lens
      ensures k.Ok() && Quiet(k.books) && ChunksNamed(k.st.own, k.refs)
      ensures Balanced(k.refs, vmas, rest) && AllBounded(vmas, k.lens)
      ensures k.st == old(k.st).(free := k.st.free, ref := k.st.ref, own := k.st.own, ent := k.st.ent)
      ensures k.eager == old(k.eager).(shm := k.eager.shm) && Referenced(old(k.eager), k.eager, k.refs)
      ensures TablesKept(old(k.st).own, k.st.own) && forall o: nat :: RefOf(k.refs, o) <= RefOf(old(k.refs), o)
      ensures LensLeft(old(k.lens), k.lens, old(k.refs), k.refs) && Path(old(k.st), k.st, done)
    {
      AllReferenced(k.st, k.books, k.eager, k.refs);
      BalancedTail(k.refs, vmas, [x] + rest);
      assert ([x] + rest)[1..] == rest;
      done := [];
      k.refs := Released(k.refs, x);
      if x.flags.share && RefOf(k.refs, x.shmem.value) == 0 {
        NamedOnce(old(k.refs), vmas, x, rest);
        done := DropObject(x, rest, old(k.refs));
      } else {
        StillReferenced(k.eager, old(k.refs), x, k.st.own, k.lens);
      }
    }

    // shmem_destroy, once the last reference is gone
    method DropObject(x: Area, ghost rest: seq<Area>, ghost was: map<nat, nat>) returns (ghost done: seq<Step>)
      requires k.Ok() && Quiet(k.books) && AllDenote(vmas, k.st.area) && AllBounded(vmas, k.lens) && Balanced(k.refs, vmas, rest)
      requires x.flags.share && x.shmem.Some? && k.refs == Released(was, x)
      requires Referenced(k.eager, k.eager, was) && ChunksNamed(k.st.own, was)
      requires RefOf(k.refs, x.shmem.value) == 0 && RefOf(was, x.shmem.value) > 0
      modifies k`st, k`books, k`eager, k`lens
      ensures k.Ok() && Quiet(k.books) && AllBounded(vmas, k.lens)
      ensures k.st == old(k.st).(free := k.st.free, ref := k.st.ref, own := k.st.own, ent := k.st.ent)
      ensures k.eager == old(k.eager).(shm := k.eager.shm) && Referenced(old(k.eager), k.eager, k.refs)
      ensures ChunksNamed(k.st.own, k.refs) && TablesKept(old(k.st).own, k.st.own)
      ensures LensLeft(old(k.lens), k.lens, was, k.refs) && Path(old(k.st), k.st, done)
    {
      NoneMaps(vmas, k.st.area, k.refs, rest, x.shmem.value);
      OtherLens(vmas, k.lens, k.lens - {x.shmem.value}, x.shmem.value);
      done := k.ShmemDestroy(x.shmem.value);
      LastReference(old(k.eager), k.eager, was, x, old(k.st).own, k.st.own, old(k.lens));
    }

    // vma_destroy for each of the areas
    method Release(todo: seq<Area>) returns (ghost done: seq<Step>)
      requires k.Ok() && Quiet(k.books) && AllDenote(vmas, k.st.area) && AllBounded(vmas, k.lens) && ChunksNamed(k.st.own, k.refs)
      requires Balanced(k.refs, vmas, todo) && Backed(todo)
      modifies k`st, k`books, k`eager, k`refs, k`lens
      ensures Ok() && TablesKept(old(k.st).own, k.st.own)
      ensures k.st == old(k.st).(free := k.st.free, ref := k.st.ref, own := k.st.own, ent := k.st.ent)
      ensures k.eager == old(k.eager).(shm := k.eager.shm) && Swept(old(k.eager), k.eager)
      ensures LensLeft(old(k.lens), k.lens, old(k.refs), k.refs) && Path(old(k.st), k.st, done)
    {
      AllReferenced(k.st, k.books, k.eager, k.refs);
      var i := 0;
      done := [];
      assert todo[0..] == todo;
      LensAll(k.lens, k.refs);
      while i < |todo|
        invariant 0 <= i <= |todo| && k.Ok() && Quiet(k.books)
        invariant ChunksNamed(k.st.own, k.refs) && Balanced(k.refs, vmas, todo[i..])
        invariant k.st == old(k.st).(free := k.st.free, ref := k.st.ref, own := k.st.own, ent := k.st.ent)
        invariant k.eager == old(k.eager).(shm := k.eager.shm) && Referenced(old(k.eager), k.eager, k.refs)
        invariant TablesKept(old(k.st).own, k.st.own) && AllBounded(vmas, k.lens)
        invariant LensLeft(old(k.lens), k.lens, old(k.refs), k.refs) && Path(old(k.st), k.st, done)
        invariant forall o: nat :: RefOf(k.refs, o) <= RefOf(old(k.refs), o)
      {
        assert todo[i..] == [todo[i]] + todo[i + 1..];
        ghost var st, refs, lens := k.st, k.refs, k.lens;
        ghost var more := VmaDestroy(todo[i], todo[i + 1..]);
        PathConcat(old(k.st), st, k.st, done, more);
        LensTwice(old(k.lens), lens, k.lens, old(k.refs), refs, k.refs);
        done := done + more;
        i := i + 1;
      }
      assert todo[i..] == [];
      ReferencedIsSwept(old(k.eager), k.eager, k.refs, vmas);
    }

    // mm_unmap on page numbers, where no shared area is split. The code unmaps the pages of each area after it has
    // destroyed the area; in whatever order the steps are taken, the outcome is this one.
    method MmUnmap(a: Asid, lo: nat, hi: nat, room: bool) returns (ok: bool, ghost done: seq<Step>)
      requires Ok() && (UserAccess(lo * PGSIZE, hi * PGSIZE) ==> SparesShared(AreasOf(vmas, a), lo * PGSIZE, hi * PGSIZE))
      modifies this, k
      ensures Ok() && UnmapStep(old(Now()), Now(), a, lo, hi, room, ok) && k.st.cur == old(k.st).cur
      ensures TablesKept(old(k.st).own, k.st.own) && k.st.pages == old(k.st).pages
      ensures Path(old(k.st).(area := k.st.area), k.st, done) && OrderFree(old(k.st).(area := k.st.area), k.st, done)
    {
      var start, end, s := lo * PGSIZE, hi * PGSIZE, AreasOf(vmas, a);
      done := [];
      InvApart(k.st, k.books);
      if !UserAccess(start, end) {
        OneOutcome(k.st, k.st, done);
        return false, done;
      }
      assert Denotes(s, k.st.area, a);
      var p := FindFirst(s, start);
      SplitIsFirst(s, start, end, p);
      if p < |s| && s[p].start < start && end < s[p].end && !room {
        OneOutcome(k.st, k.st, done);
        return false, done;
      }
      done := ErasePages(a, lo, hi);
      ghost var mid := k.st;
      ghost var more := Release(Gone(s, start, end));
      PathConcat(old(k.st).(area := k.st.area), mid, k.st, done, more);
      done := done + more;
      OneOutcome(old(k.st).(area := k.st.area), k.st, done);
      return true, done;
    }

    // The areas and the page table entries of the range go; the areas that lay wholly in it are still to be destroyed.
    method ErasePages(a: Asid, lo: nat, hi: nat) returns (ghost done: seq<Step>)
      requires Ok() && lo < hi && SparesShared(AreasOf(vmas, a), lo * PGSIZE, hi * PGSIZE)
      modifies this, k
      ensures k.Ok() && Quiet(k.books) && AllDenote(vmas, k.st.area) && ChunksNamed(k.st.own, k.refs) && k.refs == old(k.refs)
      ensures AllBounded(vmas, k.lens) && k.lens == old(k.lens) && Path(old(k.st).(area := k.st.area), k.st, done)
      ensures Balanced(k.refs, vmas, Gone(old(AreasOf(vmas, a)), lo * PGSIZE, hi * PGSIZE))
      ensures Backed(Gone(old(AreasOf(vmas, a)), lo * PGSIZE, hi * PGSIZE))
      ensures vmas == Put(old(vmas), a, Cut(old(AreasOf(vmas, a)), lo * PGSIZE, hi * PGSIZE))
      ensures k.st == old(k.st).(free := k.st.free, ref := k.st.ref, pte := k.st.pte, tlb := k.st.tlb, area := k.st.area)
      ensures k.eager.area == LessArea(old(k.eager).area, a, lo, hi) && k.eager.shm == old(k.eager).shm
      ensures Erased(old(k.eager), k.eager.(area := old(k.eager).area), a, lo, hi)
    {
      var s := AreasOf(vmas, a);
      ghost var was := k.st.area;
      assert Denotes(s, was, a);
      UnmapDenotes(s, was, a, lo, hi);
      GoneBacked(s, lo * PGSIZE, hi * PGSIZE);
      forall o: nat
        ensures Naming(s, o) == Naming(Cut(s, lo * PGSIZE, hi * PGSIZE), o) + Naming(Gone(s, lo * PGSIZE, hi * PGSIZE), o)
      {
        NamingCut(s, lo * PGSIZE, hi * PGSIZE, o);
      }
      BalancedPut(k.refs, vmas, a, Cut(s, lo * PGSIZE, hi * PGSIZE), Gone(s, lo * PGSIZE, hi * PGSIZE));
      assert Bounded(s, k.lens);
      CutBounded(s, lo * PGSIZE, hi * PGSIZE, k.lens);
      PutBounded(vmas, a, Cut(s, lo * PGSIZE, hi * PGSIZE), k.lens);
      done := k.UnmapRange(a, lo, hi);
      PathArea(old(k.st), k.st, done, LessArea(k.st.area, a, lo, hi));
      assert forall l :: l in k.st.pte ==> UnmappedAt(old(k.st), k.st, a, lo, hi, l);
      ghost var mid := k.eager;
      k.SetArea(LessArea(k.st.area, a, lo, hi));
      assert k.eager.(area := old(k.eager).area) == mid;
      forall b: Asid | b != a ensures SameSpace(was, k.st.area, b) {
        NewAreaElsewhere(was, a, lo, hi, Flags(false, false, false, false, false), None, b);
      }
      PutDenotes(vmas, was, a, Cut(s, lo * PGSIZE, hi * PGSIZE), k.st.area);
      vmas := Put(vmas, a, Cut(s, lo * PGSIZE, hi * PGSIZE));
    }

    // The first loop of exit_mmap
    method UnmapAll(a: Asid)
      requires Ok()
      modifies k`st, k`books, k`eager
      ensures k.Ok() && Quiet(k.books)
      ensures k.st == old(k.st).(free := k.st.free, ref := k.st.ref, pte := k.st.pte, tlb := k.st.tlb)
      ensures k.eager == old(k.eager).(priv := k.eager.priv, att := k.eager.att)
      ensures Erased(old(k.eager), k.eager, a, 0, LastEnd(AreasOf(vmas, a), |AreasOf(vmas, a)|))
      ensures forall l :: l in k.st.pte ==> l.a != a && l in old(k.st).pte
    {
      var s := AreasOf(vmas, a);
      assert Denotes(s, k.st.area, a);
      PagesInOrder(s);
      var i := 0;
      assert forall l :: ErasedAt(k.eager, k.eager, a, 0, 0, l);
      while i < |s|
        invariant 0 <= i <= |s| && k.Ok() && Quiet(k.books)
        invariant k.st == old(k.st).(free := k.st.free, ref := k.st.ref, pte := k.st.pte, tlb := k.st.tlb)
        invariant Erased(old(k.eager), k.eager, a, 0, LastEnd(s, i))
      {
        ghost var v := k.eager;
        ghost var _ := k.UnmapRange(a, FirstPage(s[i]), EndPage(s[i]));
        EraseStep(s, old(k.st), old(k.books), old(k.eager), v, k.eager, a, i);
        i := i + 1;
      }
      forall l | l in k.st.pte ensures l.a != a && l in old(k.st).pte {
        EraseAll(s, old(k.st), old(k.books), old(k.eager), k.eager, a, l);
        assert PteOk(k.st, k.books, l) && Shows(k.st, k.eager, l) && Shows(old(k.st), old(k.eager), l);
      }
    }

    // exit_mmap: the page tables under the areas are freed; a page table all of whose areas were unmapped before is not.
    method ExitMmap(a: Asid)
      requires Ok()
      modifies k`st, k`books, k`eager
      ensures k.Ok() && Quiet(k.books)
      ensures k.st == old(k.st).(free := k.st.free, ref := k.st.ref, pte := k.st.pte, tlb := k.st.tlb, own := k.st.own)
      ensures TablesLeft(old(k.st).own, k.st.own, a, AreasOf(vmas, a), |AreasOf(vmas, a)|)
      ensures forall l :: l in k.st.pte ==> l.a != a && l in old(k.st).pte
      ensures Erased(old(k.eager), k.eager, a, 0, LastEnd(AreasOf(vmas, a), |AreasOf(vmas, a)|))
    {
      var s := AreasOf(vmas, a);
      assert Denotes(s, k.st.area, a);
      PagesInOrder(s);
      UnmapAll(a);
      var i := 0;
      while i < |s|
        invariant 0 <= i <= |s| && k.Ok() && Quiet(k.books)
        invariant k.st == old(k.st).(free := k.st.free, ref := k.st.ref, pte := k.st.pte, tlb := k.st.tlb, own := k.st.own)
        invariant TablesLeft(old(k.st).own, k.st.own, a, s, i)
        invariant forall l :: l in k.st.pte ==> l.a != a && l in old(k.st).pte
        invariant Erased(old(k.eager), k.eager, a, 0, LastEnd(s, |s|))
      {
        ghost var own := k.st.own;
        k.ExitRange(a, FirstPage(s[i]), EndPage(s[i]));
        TablesStep(old(k.st).own, own, k.st.own, a, s, i);
        i := i + 1;
      }
    }

    // exit_mmap, and then mm_destroy, which drops the objects that no other space shares
    method Exit(a: Asid)
      requires Ok()
      modifies this, k
      ensures Ok() && Next(old(Now()), Now(), DoExit(a), Result(true)) && k.st.pages == old(k.st).pages
      ensures forall o :: o in k.st.own ==> o in old(k.st).own && k.st.own[o] == old(k.st).own[o]
      ensures forall b: Asid, p: nat :: Table(b, p) in k.st.own <==>
                Table(b, p) in old(k.st).own && !(b == a && Under(old(k.st).area, a, p))
    {
      var s := AreasOf(vmas, a);
      ghost var was := k.st.area;
      assert Denotes(s, was, a);
      ExitMmap(a);
      forall p: nat ensures Covered(s, |s|, p) <==> Under(was, a, p) {
        CoveredIsUnder(s, was, a, p);
      }
      ghost var v := k.eager;
      k.SetArea(LessSpace(k.st.area, a));
      Leave(a, s, was);
      ghost var _ := Release(s);
      forall l ensures ExitedAt(old(k.eager), k.eager, a, l) {
        EraseAll(s, old(k.st), old(k.books), old(k.eager), v, a, l);
      }
    }

    // The list of areas is empty; its areas are still to be destroyed.
    method Leave(a: Asid, s: seq<Area>, ghost was: map<Loc, Rights>)
      requires AllDenote(vmas, was) && k.st.area == LessSpace(was, a) && s == AreasOf(vmas, a) && Balanced(k.refs, vmas, [])
      requires AllBounded(vmas, k.lens)
      modifies this
      ensures vmas == Put(old(vmas), a, []) && AllDenote(vmas, k.st.area) && Balanced(k.refs, vmas, s) && Backed(s)
      ensures AllBounded(vmas, k.lens)
    {
      assert Denotes(s, was, a);
      EmptyDenotes(k.st.area, a);
      forall b: Asid | b != a ensures SameSpace(was, k.st.area, b) {
        NewAreaElsewhere(was, a, 0, 0, Flags(false, false, false, false, false), None, b);
      }
      PutDenotes(vmas, was, a, [], k.st.area);
      BalancedPut(k.refs, vmas, a, [], s);
      PutBounded(vmas, a, [], k.lens);
      vmas := Put(vmas, a, []);
    }

    // The last address space with areas exits: every page is free again, those of shared memory objects included, if and
    // only if each page table was the exiting space's and still lay under an area.
    method ExitLast(a: Asid)
      requires Ok() && forall b: Asid :: b != a ==> AreasOf(vmas, b) == []
      modifies this, k
      ensures Ok() && k.st.pages == old(k.st).pages
      ensures k.st.free == k.st.pages <==>
              forall b: Asid, p: nat :: Table(b, p) in old(k.st).own ==> b == a && Under(old(k.st).area, a, p)
    {
      ghost var own, area := k.st.own, k.st.area;
      ghost var lists := vmas;
      Exit(a);
      forall b: Asid ensures AreasOf(vmas, b) == [] {
        PutAt(lists, a, [], b);
      }
      Deserted();
      if forall b: Asid, p: nat :: Table(b, p) in own ==> b == a && Under(area, a, p) {
        assert forall o :: o in k.st.own ==> o == Table(o.a, o.pdx);
        assert k.st.own == map[];
        NothingLeft(k.st, k.books);
      } else {
        ghost var b: Asid, p: nat :| Table(b, p) in own && !(b == a && Under(area, a, p));
        TableTaken(b, p);
      }
    }

    // Without areas there are no page table entries, no entries of objects and no chunks.
    lemma Deserted()
      requires Ok() && forall b: Asid :: AreasOf(vmas, b) == []
      ensures k.st.pte == map[] && k.st.ent == map[] && forall o :: o in k.st.own ==> o.Table?
    {
      forall l ensures l !in k.st.area && l !in k.st.pte {
        assert Denotes(AreasOf(vmas, l.a), k.st.area, l.a);
        EmptyDenotes(k.st.area, l.a);
        PresentInArea(k.st, k.books, l);
      }
      forall o: nat ensures RefOf(k.refs, o) == 0 {
        TotalSome(vmas, o);
        assert RefOf(k.refs, o) == Total(vmas, o) + Naming([], o);
        assert forall a: Asid :: Naming(AreasOf(vmas, a), o) == 0;
      }
      assert forall e :: e in k.st.ent ==> EntOk(k.st, k.books, e);
    }

    lemma TableTaken(a: Asid, p: nat)
      requires Ok() && Table(a, p) in k.st.own
      ensures k.st.own[Table(a, p)] in k.st.pages - k.st.free
    {
      assert OwnOk(k.st, k.books, Table(a, p)) && PageOk(k.st, k.books, k.st.own[Table(a, p)]);
    }

    // Unmapping the last areas over a page table before the exit keeps its page from ever being freed.
    method UnmapThenExit(a: Asid, lo: nat, hi: nat, p: nat)
      requires Ok() && UserAccess(lo * PGSIZE, hi * PGSIZE) && Table(a, p) in k.st.own
      requires var s := AreasOf(vmas, a); forall i :: 0 <= i < |s| ==> lo * PGSIZE <= s[i].start && s[i].end <= hi * PGSIZE
      modifies this, k
      ensures Ok() && Table(a, p) in k.st.own && k.st.own[Table(a, p)] in k.st.pages - k.st.free
      ensures forall b: Asid :: AreasOf(vmas, b) == if b == a then [] else old(AreasOf(vmas, b))
    {
      ghost var s, was := AreasOf(vmas, a), vmas;
      assert Denotes(s, k.st.area, a);
      ghost var done;
      var ok;
      ok, done := MmUnmap(a, lo, hi, true);
      CutInside(s, lo * PGSIZE, hi * PGSIZE);
      PutAt(was, a, [], a);
      EmptyDenotes(k.st.area, a);
      ghost var now := vmas;
      Exit(a);
      forall b: Asid ensures AreasOf(vmas, b) == if b == a then [] else AreasOf(was, b) {
        PutAt(was, a, [], b);
        PutAt(now, a, [], b);
      }
      TableTaken(a, p);
    }

    // load_page_dir
    method Switch(a: Asid)
      requires Ok()
      modifies k`st
      ensures Ok() && Next(old(Now()), Now(), DoSwitch(a), Result(true))
    {
      k.LoadPageDir(a);
    }

    // dup_mmap into an address space that has no area yet
    method Fork(to: Asid, from: Asid, arm: bool, times: nat) returns (ok: bool)
      requires Ok() && to != from && AreasOf(vmas, to) == []
      modifies this, k
      ensures Ok() && Next(old(Now()), Now(), DoFork(to, from, arm, times), Result(ok))
    {
      var s := AreasOf(vmas, from);
      assert Denotes(s, k.st.area, from) && Denotes(AreasOf(vmas, to), k.st.area, to);
      EmptyDenotes(k.st.area, to);
      assert Positive(k.refs) by {
        assert forall o :: o in k.refs ==> RefOf(k.refs, o) > 0;
      }
      var n;
      ok, n := k.DupMmap(to, from, s, arm, times);
      forall b: Asid | b != to ensures SameSpace(old(k.st).area, k.st.area, b) {
        OthersKept(old(k.eager), k.eager, to, from, ok, b);
      }
      PutDenotes(vmas, old(k.st).area, to, s[n..], k.st.area);
      ForkBalanced(old(k.refs), k.refs, vmas, to, s[n..]);
      assert Bounded(s, k.lens);
      BoundedPart(s, n, k.lens);
      PutBounded(vmas, to, s[n..], k.lens);
      vmas := Put(vmas, to, s[n..]);
      assert ok ==> s[n..] == s;
    }

    // A load by the program that is running
    method Load(p: nat, off: nat, room: bool) returns (r: Option<int>)
      requires Ok()
      modifies k`st, k`books, k`eager
      ensures Ok() && Next(old(Now()), Now(), DoLoad(p, off, room), Value(r))
    {
      assert Denotes(AreasOf(vmas, k.st.cur), k.st.area, k.st.cur) && Bounded(AreasOf(vmas, k.st.cur), k.lens);
      r := k.Load(AreasOf(vmas, k.st.cur), p, off % PGSIZE, room);
      NewChunks(old(k.st).own, k.st.own, k.refs, vmas, k.st.cur);
    }

    // A store by it
    method Store(p: nat, off: nat, x: int, room: bool) returns (ok: bool)
      requires Ok()
      modifies k`st, k`books, k`eager
      ensures Ok() && Next(old(Now()), Now(), DoStore(p, off, x, room), Result(ok))
    {
      assert Denotes(AreasOf(vmas, k.st.cur), k.st.area, k.st.cur) && Bounded(AreasOf(vmas, k.st.cur), k.lens);
      ok := k.Store(AreasOf(vmas, k.st.cur), p, off % PGSIZE, x, room);
      NewChunks(old(k.st).own, k.st.own, k.refs, vmas, k.st.cur);
    }

    method Perform(e: Event) returns (out: Outcome)
      requires Ok() && !SplitsShared(vmas, e)
      modifies this, k
      ensures Ok() && Next(old(Now()), Now(), e, out)
    {
      match e
      case DoLoad(p, off, room) =>
        var r := Load(p, off, room);
        out := Value(r);
      case DoStore(p, off, x, room) =>
        var ok := Store(p, off, x, room);
        out := Result(ok);
      case DoCreate(obj, len, room) =>
        var ok := ShmemCreate(obj, len, room);
        out := Result(ok);
      case DoMap(a, lo, hi, flags, room) =>
        var ok := MmMap(a, lo, hi, flags, None, room);
        out := Result(ok);
      case DoMapShmem(a, lo, flags, obj, room) =>
        var ok := MmMapShmem(a, lo, flags, obj, room);
        out := Result(ok);
      case DoUnmap(a, lo, hi, room) =>
        ghost var done;
        var ok;
        ok, done := MmUnmap(a, lo, hi, room);
        out := Result(ok);
      case DoFork(to, from, arm, times) =>
        if to == from || AreasOf(vmas, to) != [] {
          return Result(false);
        }
        var ok := Fork(to, from, arm, times);
        out := Result(ok);
      case DoExit(a) =>
        Exit(a);
        out := Result(true);
      case DoSwitch(a) =>
        Switch(a);
        out := Result(true);
    }

    // With two free pages a store to a page of a private writable area is served, and leaves a page table.
    method StorePage(p: nat, x: int)
      requires Ok() && |k.st.free| >= 2 && Loc(k.st.cur, p) in k.eager.area
      requires k.eager.area[Loc(k.st.cur, p)] == Rights(true, true, Private)
      modifies this, k
      ensures Ok() && vmas == old(vmas) && Table(old(k.st).cur, Pdx(p)) in k.st.own
    {
      var ok := Store(p, 0, x, true);
      StoreServed(old(Now()), Now(), p, x, Result(ok));
      StoreMapped(k.st, k.books, k.eager, p);
    }

    // Every run, up to the first split of a shared area: memory behaves as if fork had copied every page at once, every
    // shared page is the one its object holds at the area's offset, shmem_ref counts the areas of all spaces, and page
    // counts and the free pages are exact.
    method Execute(events: seq<Event>) returns (outs: seq<Outcome>, ghost trace: seq<Moment>)
      requires Ok()
      modifies this, k
      ensures Ok() && |outs| <= |events| && |trace| == |outs| + 1
      ensures |outs| < |events| ==> SplitsShared(vmas, events[|outs|])
      ensures trace[0] == old(Now()) && trace[|outs|] == Now()
      ensures forall i :: 0 <= i < |outs| ==> Next(trace[i], trace[i + 1], events[i], outs[i])
      ensures forall i :: 0 <= i < |trace| ==> Exact(trace[i])
    {
      outs, trace := [], [Now()];
      HoldsNow();
      while |outs| < |events| && !SplitsShared(vmas, events[|outs|])
        invariant Ok() && |outs| <= |events| && |trace| == |outs| + 1
        invariant trace[0] == old(Now()) && trace[|outs|] == Now()
        invariant forall j :: 0 <= j < |outs| ==> Next(trace[j], trace[j + 1], events[j], outs[j])
        invariant forall j :: 0 <= j < |trace| ==> Exact(trace[j])
        decreases |events| - |outs|
      {
        var out := Perform(events[|outs|]);
        HoldsNow();
        outs, trace := outs + [out], trace + [Now()];
      }
    }

    lemma HoldsNow()
      requires Ok()
      ensures Exact(Now())
    {
      BoundedPages(Now());
      SharedPages(Now(), k.books);
      CountedRefs(Now());
      CountedPages(Now(), k.books);
    }
  }

  // mm_unmap of a range inside a shared area: the part below keeps VM_SHARE but gets no object, and the next fault there
  // dereferences NULL.
  predicate SplitsShared(vmas: Spaces, e: Event) {
    e.DoUnmap? && UserAccess(e.lo * PGSIZE, e.hi * PGSIZE) && !SparesShared(AreasOf(vmas, e.a), e.lo * PGSIZE, e.hi * PGSIZE)
  }

  // Loads and stores bring in chunks only of objects that have references.
  lemma NewChunks(own: map<Owner, Page>, own': map<Owner, Page>, refs: map<nat, nat>, vmas: Spaces, a: Asid)
    requires ChunksNamed(own, refs) && ChunksFor(own, own', AreasOf(vmas, a)) && Balanced(refs, vmas, [])
    ensures ChunksNamed(own', refs)
  {
    forall o | o in own' && o.Chunk? ensures RefOf(refs, o.obj) > 0 {
      if o !in own {
        NamingSome(AreasOf(vmas, a), o.obj);
        TotalSome(vmas, o.obj);
        assert RefOf(refs, o.obj) == Total(vmas, o.obj) + Naming([], o.obj);
      }
    }
  }

  lemma ForkBalanced(refs: map<nat, nat>, refs': map<nat, nat>, vmas: Spaces, to: Asid, s: seq<Area>)
    requires Balanced(refs, vmas, []) && Counted(refs', refs, s) && AreasOf(vmas, to) == []
    ensures Balanced(refs', Put(vmas, to, s), []) && forall o: nat :: RefOf(refs, o) <= RefOf(refs', o)
  {
    forall o: nat ensures RefOf(refs', o) + Naming(AreasOf(vmas, to), o) == RefOf(refs, o) + Naming(s, o) {
      assert RefOf(refs', o) == RefOf(refs, o) + Naming(s, o);
    }
    forall o | o in refs' ensures refs'[o] > 0 {
      assert RefOf(refs', o) > 0;
    }
    BalancedMore(refs, refs', vmas, to, s);
  }

  lemma OthersKept(v: View, v': View, to: Asid, from: Asid, ok: bool, b: Asid)
    requires if ok then Forked(v, v', to, from) else PartlyForked(v, v', to, from)
    requires b != to
    ensures SameSpace(v.area, v'.area, b)
  {
    forall x: nat ensures SamePage(v.area, v'.area, b, x) {
      if ok {
        assert ForkedAt(v, v', to, from, 0, Loc(b, x));
      } else {
        assert PartlyAt(v, v', to, from, Loc(b, x));
      }
    }
  }

  // Mapping one page where there are no areas yet
  lemma FirstMap(m: Moment, m': Moment, p: nat, flags: Flags, ok: bool)
    requires m.vmas == [] && m.view.area == map[] && MapStep(m, m', 0, p, p + 1, flags, None, true, ok)
    requires UserAccess(p * PGSIZE, (p + 1) * PGSIZE)
    ensures m'.vmas == [[Fresh(p, p + 1, flags, None)]] && m'.st.free == m.st.free
    ensures Loc(0, p) in m'.view.area && m'.view.area[Loc(0, p)] == Rights(flags.read || flags.exec, flags.write, Private)
  {
    var x := Fresh(p, p + 1, flags, None);
    assert PageMapped(m.view.area, m'.view.area, 0, p, p + 1, flags, None, Loc(0, p));
    assert With([], 0, x) == [x];
    assert Put([], 0, [x]) == [[x]];
  }

  lemma StoreServed(m: Moment, m': Moment, p: nat, x: int, out: Outcome)
    requires Next(m, m', DoStore(p, 0, x, true), out) && |m.st.free| >= 2 && m.st.area == m.view.area
    requires Loc(m.st.cur, p) in m.view.area && m.view.area[Loc(m.st.cur, p)] == Rights(true, true, Private)
    ensures out.ok && Present(m'.view, Loc(m.st.cur, p))
  {
  }

  // Map one page and write to it.
  method MapAndStore(mem: map<Page, Data>, flags: Flags) returns (sys: System)
    requires |mem| >= 2 && flags == Flags(true, true, false, false, false)
    ensures sys.Ok() && fresh(sys) && fresh(sys.k) && sys.vmas == [[Fresh(512, 513, flags, None)]] && Table(0, 0) in sys.k.st.own
  {
    sys := new System(mem);
    ghost var m0 := sys.Now();
    var ok := sys.MmMap(0, 512, 513, flags, None, true);
    FirstMap(m0, sys.Now(), 512, flags, ok);
    assert sys.k.st.cur == 0 && Pdx(512) == 0;
    sys.StorePage(512, 7);
  }

  // A page table that leaks: map one page, write to it, unmap it, exit.
  method LeakExample(mem: map<Page, Data>) returns (sys: System)
    requires |mem| >= 2
    ensures sys.Ok() && (forall a: Asid :: AreasOf(sys.vmas, a) == []) && sys.k.st.free != sys.k.st.pages
  {
    sys := MapAndStore(mem, Flags(true, true, false, false, false));
    sys.UnmapThenExit(0, 512, 513, 0);
  }

  lemma StoreMapped(s: State, b: Books, v: View, x: nat)
    requires Inv(s, b) && Refines(s, v) && Present(v, Loc(s.cur, x))
    ensures Table(s.cur, Pdx(x)) in s.own
  {
    assert Shows(s, v, Loc(s.cur, x));
    assert PteOk(s, b, Loc(s.cur, x));
  }
}
