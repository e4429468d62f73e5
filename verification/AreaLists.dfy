/**
 Virtual memory areas as values (kern/mm/vmm.c): what a sorted list of areas denotes, and what unmapping a range makes of it.
 */
module AreaLists {
  import opened Options
  import opened Units

  const USERBASE: nat := 0x0020_0000
  const USERTOP: nat := 0xB000_0000
  const KERNBASE: nat := 0xC000_0000
  const KERNTOP: nat := 0xF800_0000

  // VM_READ, VM_WRITE, VM_EXEC, VM_STACK and VM_SHARE
  datatype Flags = Flags(read: bool, write: bool, exec: bool, stack: bool, share: bool)

  // vma_struct without its links; shmem names a shared memory object
  datatype Area = Area(start: nat, end: nat, flags: Flags, shmem: Option<nat>, off: nat)

  // ---------- 32-bit addresses ----------

  function Add32(a: Address, b: nat): Address { (a + b) % WORD }

  function RoundDown(a: Address): Address { a - a % PGSIZE }

  function RoundUp(a: Address): Address { RoundDown(Add32(a, PGSIZE - 1)) }

  // USER_ACCESS
  predicate UserAccess(start: nat, end: nat) { USERBASE <= start < end <= USERTOP }

  // KERN_ACCESS of arch/x86/generic/include/memlayout.h
  predicate KernAccess(start: nat, end: nat) { KERNBASE <= start < end <= KERNTOP }

  // To the page at or below, and to the page at or above, which for the last page of the address space is 0
  lemma Rounded(a: Address)
    ensures RoundDown(a) % PGSIZE == 0 && RoundDown(a) <= a < RoundDown(a) + PGSIZE
    ensures RoundUp(a) % PGSIZE == 0 && if a <= WORD - PGSIZE then a <= RoundUp(a) < a + PGSIZE else RoundUp(a) == 0
  {
  }

  // The range of addr and len lies in user space; both may be misaligned, and their sum wraps at 32 bits.
  predicate Accepts(addr: Address, len: Address) {
    USERBASE <= addr && addr - addr % PGSIZE < (addr + len) % WORD <= USERTOP
  }

  // Address a lies in a page that the range touches.
  predicate Touches(addr: Address, len: Address, a: int) {
    addr / PGSIZE <= a / PGSIZE && a / PGSIZE * PGSIZE < (addr + len) % WORD
  }

  // What the rounded bounds of mm_map and mm_unmap mean
  lemma RoundedRange(addr: Address, len: Address)
    ensures var lo, hi := RoundDown(addr), RoundUp(Add32(addr, len));
            (UserAccess(lo, hi) <==> Accepts(addr, len))
            && (UserAccess(lo, hi) ==> forall a :: lo <= a < hi <==> Touches(addr, len, a))
  {
    var lo, e := RoundDown(addr), Add32(addr, len);
    var hi := RoundUp(e);
    Rounded(addr);
    Rounded(e);
    AboveAligned(USERBASE, addr);
    if e <= WORD - PGSIZE {
      AlignedAbove(e, hi, USERTOP);
      AlignedAbove(e, hi, lo);
    }
    if UserAccess(lo, hi) {
      forall a: int ensures lo <= a < hi <==> Touches(addr, len, a) {
        NotBelow(addr, a);
        BelowEnd(a, e, hi);
      }
    }
  }

  lemma AboveAligned(b: nat, a: nat)
    requires b % PGSIZE == 0
    ensures b <= a - a % PGSIZE <==> b <= a
  {
  }

  lemma AlignedAbove(e: nat, hi: nat, b: nat)
    requires b % PGSIZE == 0 && hi % PGSIZE == 0 && e <= hi < e + PGSIZE
    ensures hi <= b <==> e <= b
  {
  }

  lemma NotBelow(lo: nat, a: int)
    ensures lo - lo % PGSIZE <= a <==> lo / PGSIZE <= a / PGSIZE
  {
  }

  lemma BelowEnd(a: int, e: nat, hi: nat)
    requires hi % PGSIZE == 0 && e <= hi < e + PGSIZE
    ensures a < hi <==> a / PGSIZE * PGSIZE < e
  {
  }

  // ---------- what a list of areas denotes ----------

  predicate Covers(x: Area, a: int) { x.start <= a < x.end }

  predicate Clash(x: Area, y: Area) { x.start < y.end && y.start < x.end }

  // Sorted, disjoint and without empty areas
  ghost predicate Disjoint(s: seq<Area>) {
    (forall i :: 0 <= i < |s| ==> s[i].start < s[i].end)
    && (forall i, j :: 0 <= i < j < |s| ==> s[i].end <= s[j].start)
  }

  ghost predicate HasFlags(s: seq<Area>, a: int, f: Flags) {
    exists i :: 0 <= i < |s| && Covers(s[i], a) && s[i].flags == f
  }

  // Address a is byte off of object o.
  ghost predicate BackedBy(s: seq<Area>, a: int, o: nat, off: int) {
    exists i :: 0 <= i < |s| && Covers(s[i], a) && Backs(s[i], a, o, off)
  }

  ghost predicate Backs(x: Area, a: int, o: nat, off: int) {
    x.flags.share && x.shmem == Some(o) && off == a - x.start + x.off
  }

  ghost predicate Mapped(s: seq<Area>, a: int) { exists i :: 0 <= i < |s| && Covers(s[i], a) }

  // Inside user space, whole pages, and no object unless shared
  predicate WellFormed(x: Area) {
    UserAccess(x.start, x.end) && x.start % PGSIZE == 0 && x.end % PGSIZE == 0
    && x.off % PGSIZE == 0 && (!x.flags.share ==> x.shmem.None? && x.off == 0)
  }

  predicate HasObject(x: Area) { x.flags.share ==> x.shmem.Some? }

  // Every area with VM_SHARE names an object.
  ghost predicate Backed(s: seq<Area>) { forall i :: 0 <= i < |s| ==> HasObject(s[i]) }

  // ---------- lookup ----------

  // The first area whose end exceeds addr
  ghost predicate IsFirst(s: seq<Area>, addr: int, k: nat) {
    k <= |s| && (forall j :: 0 <= j < k ==> s[j].end <= addr) && (forall j :: k <= j < |s| ==> s[j].end > addr)
  }

  // In a sorted list it is enough to look at the neighbours.
  lemma FirstByNeighbours(s: seq<Area>, addr: int, k: nat)
    requires Disjoint(s) && k <= |s| && (k > 0 ==> s[k - 1].end <= addr) && (k < |s| ==> s[k].end > addr)
    ensures IsFirst(s, addr, k)
  {
    forall j | 0 <= j < k ensures s[j].end <= addr {
      if j < k - 1 {
        assert s[j].end <= s[k - 1].start;
      }
    }
    forall j | k <= j < |s| ensures s[j].end > addr {
      if k < j {
        assert s[k].end <= s[j].start;
      }
    }
  }

  // The list scan of find_vma
  method FindFirst(s: seq<Area>, addr: nat) returns (k: nat)
    requires Disjoint(s)
    ensures IsFirst(s, addr, k)
  {
    k := 0;
    while k < |s| && addr >= s[k].end
      invariant k <= |s| && (k > 0 ==> s[k - 1].end <= addr)
    {
      k := k + 1;
    }
    FirstByNeighbours(s, addr, k);
  }

  lemma FirstIfCovers(s: seq<Area>, addr: int, k: nat)
    requires Disjoint(s) && k < |s| && Covers(s[k], addr)
    ensures IsFirst(s, addr, k)
  {
    assert k > 0 ==> s[k - 1].end <= s[k].start;
    FirstByNeighbours(s, addr, k);
  }

  lemma FirstUnique(s: seq<Area>, addr: int, k: nat, m: nat)
    requires IsFirst(s, addr, k) && IsFirst(s, addr, m)
    ensures k == m
  {
    assert k < |s| ==> s[k].end > addr;
    assert m < |s| ==> s[m].end > addr;
  }

  // ---------- adding an area ----------

  // x goes at position p: everything before it ends before x, everything from p on starts after x.
  ghost predicate FitsAt(s: seq<Area>, x: Area, p: nat) {
    p <= |s| && (forall j :: 0 <= j < p ==> s[j].end <= x.start) && (forall j :: p <= j < |s| ==> x.end <= s[j].start)
  }

  function With<T>(s: seq<T>, p: nat, x: T): seq<T>
    requires p <= |s|
  {
    s[..p] + [x] + s[p..]
  }

  lemma WithAt<T>(s: seq<T>, p: nat, x: T)
    requires p <= |s|
    ensures |With(s, p, x)| == |s| + 1
    ensures forall j :: 0 <= j <= |s| ==> With(s, p, x)[j] == if j < p then s[j] else if j == p then x else s[j - 1]
  {
  }

  lemma WithDisjoint(s: seq<Area>, x: Area, p: nat)
    requires Disjoint(s) && x.start < x.end && FitsAt(s, x, p)
    ensures Disjoint(With(s, p, x))
  {
    WithAt(s, p, x);
    var t := With(s, p, x);
    forall i, j | 0 <= i < j < |t| ensures t[i].end <= t[j].start {
    }
  }

  lemma WithoutDisjoint(s: seq<Area>, p: nat)
    requires Disjoint(s) && p < |s|
    ensures Disjoint(s[..p] + s[p + 1..])
  {
    var t := s[..p] + s[p + 1..];
    assert forall j :: 0 <= j < |t| ==> t[j] == if j < p then s[j] else s[j + 1];
  }

  // No area of the list overlaps x.
  ghost predicate Clear(s: seq<Area>, x: Area) { forall i :: 0 <= i < |s| ==> !Clash(s[i], x) }

  // Where the starts put x is where it fits.
  lemma FitsByStart(s: seq<Area>, x: Area, p: nat)
    requires Disjoint(s) && x.start < x.end && Clear(s, x) && p <= |s|
    requires forall j :: 0 <= j < p ==> s[j].start <= x.start
    requires forall j :: p <= j < |s| ==> s[j].start > x.start
    ensures FitsAt(s, x, p)
  {
    forall j | 0 <= j < |s| ensures if j < p then s[j].end <= x.start else x.end <= s[j].start {
      assert !Clash(s[j], x);
    }
  }

  // A range overlaps no area exactly if it ends before the first area that ends after its start.
  lemma ClearByFirst(s: seq<Area>, x: Area, k: nat)
    requires Disjoint(s) && x.start < x.end && IsFirst(s, x.start, k)
    ensures Clear(s, x) <==> k == |s| || x.end <= s[k].start
  {
    if k < |s| {
      assert Clash(s[k], x) <==> x.end > s[k].start;
      forall i | k < i < |s| ensures x.end <= s[k].start ==> !Clash(s[i], x) {
        assert s[k].end <= s[i].start;
      }
    }
  }

  // An area that overlaps none goes before the first area that ends after its start.
  lemma FitsBeforeFirst(s: seq<Area>, x: Area, k: nat)
    requires Disjoint(s) && x.start < x.end && IsFirst(s, x.start, k) && Clear(s, x)
    ensures FitsAt(s, x, k)
  {
    ClearByFirst(s, x, k);
    forall j | k < j < |s| ensures x.end <= s[j].start {
      assert s[k].start < s[k].end <= s[j].start;
    }
  }

  lemma MappedWith(s: seq<Area>, p: nat, x: Area, a: int)
    requires p <= |s|
    ensures Mapped(With(s, p, x), a) <==> Mapped(s, a) || Covers(x, a)
  {
    WithAt(s, p, x);
    var t := With(s, p, x);
    if Mapped(s, a) {
      var i :| 0 <= i < |s| && Covers(s[i], a);
      assert t[if i < p then i else i + 1] == s[i];
    }
    assert t[p] == x;
  }

  // ---------- what mapping a range means ----------

  lemma HasFlagsWith(s: seq<Area>, p: nat, x: Area, a: int, f: Flags)
    requires p <= |s|
    ensures HasFlags(With(s, p, x), a, f) <==> HasFlags(s, a, f) || (Covers(x, a) && x.flags == f)
  {
    WithAt(s, p, x);
    var t := With(s, p, x);
    if HasFlags(s, a, f) {
      var i :| 0 <= i < |s| && Covers(s[i], a) && s[i].flags == f;
      assert t[if i < p then i else i + 1] == s[i];
    }
    assert t[p] == x;
  }

  lemma BackedByWith(s: seq<Area>, p: nat, x: Area, a: int, o: nat, off: int)
    requires p <= |s|
    ensures BackedBy(With(s, p, x), a, o, off) <==> BackedBy(s, a, o, off) || (Covers(x, a) && Backs(x, a, o, off))
  {
    WithAt(s, p, x);
    var t := With(s, p, x);
    if BackedBy(s, a, o, off) {
      var i :| 0 <= i < |s| && Covers(s[i], a) && Backs(s[i], a, o, off);
      assert t[if i < p then i else i + 1] == s[i];
    }
    assert t[p] == x;
  }

  // Some area overlaps a page that the range touches.
  ghost predicate Occupied(s: seq<Area>, addr: Address, len: Address) { exists a :: Touches(addr, len, a) && Mapped(s, a) }

  // The pages that the range touches, and no other addresses, have become mapped, with these flags, and to the object from
  // its start on if there is one.
  ghost predicate NewlyMapped(s: seq<Area>, s': seq<Area>, addr: Address, len: Address, f: Flags, obj: Option<nat>) {
    (forall a, g {:trigger HasFlags(s', a, g)} :: HasFlags(s', a, g) <==> HasFlags(s, a, g) || (g == f && Touches(addr, len, a)))
    && (forall a, o: nat, off {:trigger BackedBy(s', a, o, off)} ::
          BackedBy(s', a, o, off) <==>
          BackedBy(s, a, o, off) || (obj == Some(o) && Touches(addr, len, a) && off == a - (addr - addr % PGSIZE)))
  }

  lemma ClearIsFree(s: seq<Area>, x: Area, addr: Address, len: Address)
    requires Disjoint(s) && x.start < x.end && forall a :: Covers(x, a) <==> Touches(addr, len, a)
    ensures Clear(s, x) <==> !Occupied(s, addr, len)
  {
    if a :| Touches(addr, len, a) && Mapped(s, a) {
      var i :| 0 <= i < |s| && Covers(s[i], a);
      assert Covers(x, a) && Clash(s[i], x);
    }
    if i :| 0 <= i < |s| && Clash(s[i], x) {
      var a := if s[i].start < x.start then x.start else s[i].start;
      assert Covers(s[i], a) && Covers(x, a);
      assert Mapped(s, a) && Touches(addr, len, a);
    }
  }

  lemma WithNewlyMapped(s: seq<Area>, p: nat, x: Area, addr: Address, len: Address)
    requires p <= |s| && x.start == addr - addr % PGSIZE && x.off == 0 && (x.shmem.Some? <==> x.flags.share)
    requires forall a :: Covers(x, a) <==> Touches(addr, len, a)
    ensures NewlyMapped(s, With(s, p, x), addr, len, x.flags, x.shmem)
  {
    var s' := With(s, p, x);
    forall a, g ensures HasFlags(s', a, g) <==> HasFlags(s, a, g) || (g == x.flags && Touches(addr, len, a)) {
      HasFlagsWith(s, p, x, a, g);
    }
    forall a, o: nat, off
      ensures BackedBy(s', a, o, off) <==>
              BackedBy(s, a, o, off) || (x.shmem == Some(o) && Touches(addr, len, a) && off == a - (addr - addr % PGSIZE))
    {
      BackedByWith(s, p, x, a, o, off);
    }
  }

  // ---------- unmapping a range ----------

  // vma_resize
  function Resized(x: Area, start: nat, end: nat): Area
    requires x.start <= start
  {
    Area(start, end, x.flags, x.shmem, if x.flags.share then x.off + (start - x.start) else x.off)
  }

  // What lies below the range and what lies above it
  function Below(x: Area, lo: nat): seq<Area> {
    if x.start >= lo then [] else if x.end <= lo then [x] else [Resized(x, x.start, lo)]
  }

  function Beyond(x: Area, hi: nat): seq<Area> {
    if x.end <= hi then [] else if x.start >= hi then [x] else [Resized(x, hi, x.end)]
  }

  function Pieces(x: Area, lo: nat, hi: nat): seq<Area> {
    if x.end <= lo || x.start >= hi then [x] else Below(x, lo) + Beyond(x, hi)
  }

  // The areas that remain when [lo, hi) is unmapped
  function Cut(s: seq<Area>, lo: nat, hi: nat): seq<Area> {
    if s == [] then [] else Pieces(s[0], lo, hi) + Cut(s[1..], lo, hi)
  }

  lemma HasFlagsConcat(s: seq<Area>, t: seq<Area>, a: int, f: Flags)
    ensures HasFlags(s + t, a, f) <==> HasFlags(s, a, f) || HasFlags(t, a, f)
  {
    if HasFlags(s, a, f) {
      var i :| 0 <= i < |s| && Covers(s[i], a) && s[i].flags == f;
      assert (s + t)[i] == s[i];
    }
    if HasFlags(t, a, f) {
      var i :| 0 <= i < |t| && Covers(t[i], a) && t[i].flags == f;
      assert (s + t)[|s| + i] == t[i];
    }
  }

  lemma BackedByConcat(s: seq<Area>, t: seq<Area>, a: int, o: nat, off: int)
    ensures BackedBy(s + t, a, o, off) <==> BackedBy(s, a, o, off) || BackedBy(t, a, o, off)
  {
    if BackedBy(s, a, o, off) {
      var i :| 0 <= i < |s| && Covers(s[i], a) && Backs(s[i], a, o, off);
      assert (s + t)[i] == s[i];
    }
    if BackedBy(t, a, o, off) {
      var i :| 0 <= i < |t| && Covers(t[i], a) && Backs(t[i], a, o, off);
      assert (s + t)[|s| + i] == t[i];
    }
  }

  lemma PiecesFlags(x: Area, lo: nat, hi: nat, a: int, f: Flags)
    requires lo < hi
    ensures HasFlags(Pieces(x, lo, hi), a, f) <==> Covers(x, a) && x.flags == f && !(lo <= a < hi)
  {
    var p := Pieces(x, lo, hi);
    assert forall i :: 0 <= i < |p| ==> p[i].flags == x.flags;
    if Covers(x, a) && !(lo <= a < hi) {
      assert |p| > 0 && (Covers(p[0], a) || Covers(p[|p| - 1], a));
    }
  }

  lemma PiecesBacked(x: Area, lo: nat, hi: nat, a: int, o: nat, off: int)
    requires lo < hi
    ensures BackedBy(Pieces(x, lo, hi), a, o, off) <==> Covers(x, a) && Backs(x, a, o, off) && !(lo <= a < hi)
  {
    var p := Pieces(x, lo, hi);
    if Covers(x, a) && !(lo <= a < hi) {
      assert |p| > 0 && (Covers(p[0], a) || Covers(p[|p| - 1], a));
    }
  }

  lemma HeadAndTail(s: seq<Area>)
    requires s != []
    ensures s == [s[0]] + s[1..]
  {
  }

  // The flags of exactly the addresses outside the range remain.
  lemma {:induction false} CutErases(s: seq<Area>, lo: nat, hi: nat, a: int, f: Flags)
    requires lo < hi
    ensures HasFlags(Cut(s, lo, hi), a, f) <==> HasFlags(s, a, f) && !(lo <= a < hi)
    decreases |s|
  {
    if s != [] {
      CutErases(s[1..], lo, hi, a, f);
      PiecesFlags(s[0], lo, hi, a, f);
      HasFlagsConcat(Pieces(s[0], lo, hi), Cut(s[1..], lo, hi), a, f);
      HasFlagsConcat([s[0]], s[1..], a, f);
      HeadAndTail(s);
      assert HasFlags([s[0]], a, f) <==> Covers([s[0]][0], a) && s[0].flags == f;
    }
  }

  // So do the objects and offsets behind them.
  lemma {:induction false} CutKeepsBacking(s: seq<Area>, lo: nat, hi: nat, a: int, o: nat, off: int)
    requires lo < hi
    ensures BackedBy(Cut(s, lo, hi), a, o, off) <==> BackedBy(s, a, o, off) && !(lo <= a < hi)
    decreases |s|
  {
    if s != [] {
      CutKeepsBacking(s[1..], lo, hi, a, o, off);
      PiecesBacked(s[0], lo, hi, a, o, off);
      BackedByConcat(Pieces(s[0], lo, hi), Cut(s[1..], lo, hi), a, o, off);
      BackedByConcat([s[0]], s[1..], a, o, off);
      HeadAndTail(s);
      assert BackedBy([s[0]], a, o, off) <==> Covers([s[0]][0], a) && Backs(s[0], a, o, off);
    }
  }

  lemma {:induction false} CutConcat(s: seq<Area>, t: seq<Area>, lo: nat, hi: nat)
    ensures Cut(s + t, lo, hi) == Cut(s, lo, hi) + Cut(t, lo, hi)
    decreases |s|
  {
    if s == [] {
      assert s + t == t;
    } else {
      assert (s + t)[1..] == s[1..] + t;
      CutConcat(s[1..], t, lo, hi);
    }
  }

  lemma {:induction false} CutOutside(s: seq<Area>, lo: nat, hi: nat)
    requires forall i :: 0 <= i < |s| ==> s[i].end <= lo || s[i].start >= hi
    ensures Cut(s, lo, hi) == s
    decreases |s|
  {
    if s != [] {
      CutOutside(s[1..], lo, hi);
    }
  }

  lemma {:induction false} CutInside(s: seq<Area>, lo: nat, hi: nat)
    requires forall i :: 0 <= i < |s| ==> lo <= s[i].start < hi && lo < s[i].end <= hi
    ensures Cut(s, lo, hi) == []
    decreases |s|
  {
    if s != [] {
      CutInside(s[1..], lo, hi);
    }
  }

  lemma {:induction false} CutOne(x: Area, lo: nat, hi: nat)
    ensures Cut([x], lo, hi) == Pieces(x, lo, hi)
  {
    assert [x][1..] == [];
  }

  // Areas k to m overlap the range, the others do not.
  ghost predicate Touched(s: seq<Area>, lo: nat, hi: nat, k: nat, m: nat) {
    k < m <= |s| && s[k].end > lo && s[m - 1].start < hi
    && (k > 0 ==> s[k - 1].end <= lo) && (m < |s| ==> s[m].start >= hi)
  }

  // Of those, only the first can reach below the range and only the last beyond it.
  lemma {:induction false} CutMiddle(s: seq<Area>, lo: nat, hi: nat, k: nat, m: nat)
    requires Disjoint(s) && lo < hi && Touched(s, lo, hi, k, m) && (k + 1 == m ==> s[k].start >= lo || s[k].end <= hi)
    ensures Cut(s, lo, hi) == s[..k] + Below(s[k], lo) + Beyond(s[m - 1], hi) + s[m..]
  {
    CutEnds(s, lo, hi, k, m);
    CutPart(s, lo, hi, k, m);
    CutAssembled(s, k, m, Below(s[k], lo), Beyond(s[m - 1], hi), lo, hi);
  }

  lemma {:induction false} CutPart(s: seq<Area>, lo: nat, hi: nat, k: nat, m: nat)
    requires Disjoint(s) && Touched(s, lo, hi, k, m) && (k + 1 == m ==> s[k].start >= lo || s[k].end <= hi)
    ensures Cut(s[k..m], lo, hi) == Below(s[k], lo) + Beyond(s[m - 1], hi)
  {
    DisjointPart(s, k, m);
    CutTouched(s[k..m], lo, hi);
  }

  lemma {:induction false} CutAssembled(s: seq<Area>, k: nat, m: nat, b: seq<Area>, c: seq<Area>, lo: nat, hi: nat)
    requires k <= m <= |s| && Cut(s[..k], lo, hi) == s[..k] && Cut(s[k..m], lo, hi) == b + c && Cut(s[m..], lo, hi) == s[m..]
    ensures Cut(s, lo, hi) == s[..k] + b + c + s[m..]
  {
    Split3(s, k, m);
    CutThree(s[..k], s[k..m], s[m..], b, c, lo, hi);
  }

  // The range lies inside area k.
  lemma {:induction false} CutWithin(s: seq<Area>, lo: nat, hi: nat, k: nat)
    requires Disjoint(s) && lo < hi && k < |s| && s[k].start < lo && hi < s[k].end
    ensures Cut(s, lo, hi) == s[..k] + Below(s[k], lo) + Beyond(s[k], hi) + s[k + 1..]
  {
    var m := k + 1;
    assert k > 0 ==> s[k - 1].end <= s[k].start;
    assert m < |s| ==> s[k].end <= s[m].start;
    CutEnds(s, lo, hi, k, m);
    CutSingle(s, lo, hi, k);
    CutAssembled(s, k, m, Below(s[k], lo), Beyond(s[k], hi), lo, hi);
  }

  lemma {:induction false} CutSingle(s: seq<Area>, lo: nat, hi: nat, k: nat)
    requires k < |s| && s[k].start < lo < hi < s[k].end
    ensures Cut(s[k..k + 1], lo, hi) == Below(s[k], lo) + Beyond(s[k], hi)
  {
    assert s[k..k + 1] == [s[k]];
    CutOne(s[k], lo, hi);
  }

  lemma DisjointPart(s: seq<Area>, k: nat, m: nat)
    requires Disjoint(s) && k < m <= |s|
    ensures Disjoint(s[k..m]) && s[k..m][0] == s[k] && s[k..m][m - k - 1] == s[m - 1]
  {
  }

  lemma {:induction false} CutThree(a: seq<Area>, mid: seq<Area>, d: seq<Area>, b: seq<Area>, c: seq<Area>, lo: nat, hi: nat)
    requires Cut(a, lo, hi) == a && Cut(mid, lo, hi) == b + c && Cut(d, lo, hi) == d
    ensures Cut(a + mid + d, lo, hi) == a + b + c + d
  {
    CutConcat(a + mid, d, lo, hi);
    CutConcat(a, mid, lo, hi);
    Regroup(a, b, c, d);
  }

  lemma Regroup(a: seq<Area>, b: seq<Area>, c: seq<Area>, d: seq<Area>)
    ensures a + (b + c) + d == a + b + c + d
  {
  }

  lemma {:induction false} CutEnds(s: seq<Area>, lo: nat, hi: nat, k: nat, m: nat)
    requires Disjoint(s) && lo < hi && Touched(s, lo, hi, k, m)
    ensures Cut(s[..k], lo, hi) == s[..k] && Cut(s[m..], lo, hi) == s[m..]
  {
    assert forall i :: 0 <= i < k - 1 ==> s[i].end <= s[k - 1].start;
    CutOutside(s[..k], lo, hi);
    assert forall i :: m < i < |s| ==> s[m].end <= s[i].start;
    CutOutside(s[m..], lo, hi);
  }

  lemma Split3(s: seq<Area>, k: nat, m: nat)
    requires k <= m <= |s|
    ensures s == s[..k] + s[k..m] + s[m..]
  {
  }

  lemma {:induction false} CutTouched(s: seq<Area>, lo: nat, hi: nat)
    requires Disjoint(s) && |s| > 0 && s[0].end > lo && s[|s| - 1].start < hi
    requires |s| == 1 ==> s[0].start >= lo || s[0].end <= hi
    ensures Cut(s, lo, hi) == Below(s[0], lo) + Beyond(s[|s| - 1], hi)
  {
    var n := |s| - 1;
    if n == 0 {
      assert s == [s[0]];
      CutOne(s[0], lo, hi);
    } else {
      assert s[0].end <= s[n].start;
      assert s == [s[0]] + (s[1..n] + [s[n]]);
      CutConcat([s[0]], s[1..n] + [s[n]], lo, hi);
      CutConcat(s[1..n], [s[n]], lo, hi);
      CutOne(s[0], lo, hi);
      CutOne(s[n], lo, hi);
      forall i | 1 <= i < n ensures lo <= s[i].start < hi && lo < s[i].end <= hi {
        assert s[0].end <= s[i].start && s[i].end <= s[n].start;
      }
      CutInside(s[1..n], lo, hi);
    }
  }

  lemma AlignedShift(off: nat, start: nat, from: nat)
    requires off % PGSIZE == 0 && start % PGSIZE == 0 && from % PGSIZE == 0 && start <= from
    ensures (off + (from - start)) % PGSIZE == 0
  {
  }

  lemma ResizedWellFormed(x: Area, start: nat, end: nat)
    requires WellFormed(x) && start % PGSIZE == 0 && end % PGSIZE == 0 && x.start <= start < end <= x.end
    ensures WellFormed(Resized(x, start, end)) && (HasObject(x) ==> HasObject(Resized(x, start, end)))
  {
    AlignedShift(x.off, x.start, start);
  }

  lemma PiecesWellFormed(x: Area, lo: nat, hi: nat)
    requires WellFormed(x) && lo % PGSIZE == 0 && hi % PGSIZE == 0 && lo < hi
    ensures AllWellFormed(Pieces(x, lo, hi)) && (HasObject(x) ==> Backed(Pieces(x, lo, hi)))
  {
    if x.start < lo < x.end {
      ResizedWellFormed(x, x.start, lo);
    }
    if x.start < hi < x.end {
      ResizedWellFormed(x, hi, x.end);
    }
  }

  lemma ConcatWellFormed(s: seq<Area>, t: seq<Area>)
    requires AllWellFormed(s) && AllWellFormed(t)
    ensures AllWellFormed(s + t) && (Backed(s) && Backed(t) ==> Backed(s + t))
  {
    forall i | 0 <= i < |s + t| ensures WellFormed((s + t)[i]) {
      assert if i < |s| then WellFormed(s[i]) else WellFormed(t[i - |s|]);
    }
  }

  lemma TailWellFormed(s: seq<Area>)
    requires s != [] && AllWellFormed(s)
    ensures WellFormed(s[0]) && AllWellFormed(s[1..]) && (Backed(s) ==> HasObject(s[0]) && Backed(s[1..]))
  {
    assert forall i :: 1 <= i < |s| ==> WellFormed(s[i]);
  }

  lemma {:induction false} CutWellFormed(s: seq<Area>, lo: nat, hi: nat)
    requires AllWellFormed(s) && lo % PGSIZE == 0 && hi % PGSIZE == 0 && lo < hi
    ensures AllWellFormed(Cut(s, lo, hi)) && (Backed(s) ==> Backed(Cut(s, lo, hi)))
    decreases |s|
  {
    if s != [] {
      TailWellFormed(s);
      CutWellFormed(s[1..], lo, hi);
      PiecesWellFormed(s[0], lo, hi);
      ConcatWellFormed(Pieces(s[0], lo, hi), Cut(s[1..], lo, hi));
    }
  }

  predicate Splits(x: Area, lo: nat, hi: nat) { x.start < lo && hi < x.end }

  // No shared area is split: the guard of the branch that copies the flags but not the object.
  predicate SparesShared(s: seq<Area>, lo: nat, hi: nat) {
    forall k :: 0 <= k < |s| && s[k].flags.share ==> !Splits(s[k], lo, hi)
  }

  lemma {:induction false} CutStarts(s: seq<Area>, lo: nat, hi: nat, e: nat)
    requires forall i :: 0 <= i < |s| ==> e <= s[i].start
    ensures forall i :: 0 <= i < |Cut(s, lo, hi)| ==> e <= Cut(s, lo, hi)[i].start
    decreases |s|
  {
    if s != [] {
      CutStarts(s[1..], lo, hi, e);
    }
  }

  lemma DisjointConcat(a: seq<Area>, b: seq<Area>, e: nat)
    requires Disjoint(a) && Disjoint(b)
    requires (forall i :: 0 <= i < |a| ==> a[i].end <= e) && (forall i :: 0 <= i < |b| ==> e <= b[i].start)
    ensures Disjoint(a + b)
  {
  }

  lemma TailDisjoint(s: seq<Area>)
    requires Disjoint(s) && s != []
    ensures s[0].start < s[0].end && Disjoint(s[1..]) && forall i :: 0 <= i < |s[1..]| ==> s[0].end <= s[1..][i].start
  {
  }

  lemma PiecesDisjoint(x: Area, lo: nat, hi: nat)
    requires x.start < x.end && lo < hi
    ensures Disjoint(Pieces(x, lo, hi)) && forall i :: 0 <= i < |Pieces(x, lo, hi)| ==> Pieces(x, lo, hi)[i].end <= x.end
  {
  }

  lemma {:induction false} CutDisjoint(s: seq<Area>, lo: nat, hi: nat)
    requires Disjoint(s) && lo < hi
    ensures Disjoint(Cut(s, lo, hi))
    decreases |s|
  {
    if s != [] {
      TailDisjoint(s);
      CutDisjoint(s[1..], lo, hi);
      CutStarts(s[1..], lo, hi, s[0].end);
      PiecesDisjoint(s[0], lo, hi);
      DisjointConcat(Pieces(s[0], lo, hi), Cut(s[1..], lo, hi), s[0].end);
    }
  }

  // ---------- the lengths of shared memory objects ----------

  // How many pages len bytes take
  function PagesIn(len: nat): nat { (len + PGSIZE - 1) / PGSIZE }

  // The area reaches no further than its object.
  ghost predicate InObject(x: Area, lens: map<nat, nat>) {
    x.flags.share && x.shmem.Some? ==>
      x.shmem.value in lens && x.off + (x.end - x.start) <= PagesIn(lens[x.shmem.value]) * PGSIZE
  }

  ghost predicate Bounded(s: seq<Area>, lens: map<nat, nat>) {
    forall i {:trigger InObject(s[i], lens)} :: 0 <= i < |s| ==> InObject(s[i], lens)
  }

  lemma PiecesBounded(x: Area, lo: nat, hi: nat, lens: map<nat, nat>)
    requires InObject(x, lens) && lo < hi
    ensures Bounded(Pieces(x, lo, hi), lens)
  {
  }

  lemma BoundedConcat(s: seq<Area>, t: seq<Area>, lens: map<nat, nat>)
    requires Bounded(s, lens) && Bounded(t, lens)
    ensures Bounded(s + t, lens)
  {
    forall i | 0 <= i < |s + t| ensures InObject((s + t)[i], lens) {
      assert if i < |s| then InObject(s[i], lens) else InObject(t[i - |s|], lens);
    }
  }

  lemma BoundedPart(s: seq<Area>, k: nat, lens: map<nat, nat>)
    requires Bounded(s, lens) && k <= |s|
    ensures Bounded(s[..k], lens) && Bounded(s[k..], lens)
  {
    assert forall i :: 0 <= i < |s| ==> InObject(s[i], lens);
  }

  // Trims move the offset with the start, so what is left stays inside the object.
  lemma {:induction false} CutBounded(s: seq<Area>, lo: nat, hi: nat, lens: map<nat, nat>)
    requires Bounded(s, lens) && lo < hi
    ensures Bounded(Cut(s, lo, hi), lens)
    decreases |s|
  {
    if s != [] {
      assert InObject(s[0], lens);
      BoundedPart(s, 1, lens);
      CutBounded(s[1..], lo, hi, lens);
      PiecesBounded(s[0], lo, hi, lens);
      BoundedConcat(Pieces(s[0], lo, hi), Cut(s[1..], lo, hi), lens);
    }
  }

  lemma WithBounded(s: seq<Area>, p: nat, x: Area, lens: map<nat, nat>)
    requires Bounded(s, lens) && p <= |s| && InObject(x, lens)
    ensures Bounded(With(s, p, x), lens)
  {
    BoundedPart(s, p, lens);
    BoundedConcat(s[..p], [x], lens);
    BoundedConcat(s[..p] + [x], s[p..], lens);
  }

  // ---------- references to shared memory objects ----------

  function Names(x: Area, o: nat): nat { if x.flags.share && x.shmem == Some(o) then 1 else 0 }

  // The number of areas that name o
  function Naming(s: seq<Area>, o: nat): nat {
    if s == [] then 0 else Names(s[0], o) + Naming(s[1..], o)
  }

  lemma {:induction false} NamingConcat(s: seq<Area>, t: seq<Area>, o: nat)
    ensures Naming(s + t, o) == Naming(s, o) + Naming(t, o)
    decreases |s|
  {
    if s == [] {
      assert s + t == t;
    } else {
      assert (s + t)[1..] == s[1..] + t;
      NamingConcat(s[1..], t, o);
    }
  }

  lemma NamingWith(s: seq<Area>, p: nat, x: Area, o: nat)
    requires p <= |s|
    ensures Naming(With(s, p, x), o) == Naming(s, o) + Names(x, o)
  {
    NamingConcat(s[..p] + [x], s[p..], o);
    NamingConcat(s[..p], [x], o);
    NamingConcat(s[..p], s[p..], o);
    assert s == s[..p] + s[p..];
    assert [x][1..] == [];
  }

  // The areas that unmapping a range destroys
  function Gone(s: seq<Area>, lo: nat, hi: nat): seq<Area> {
    if s == [] then [] else (if lo <= s[0].start && s[0].end <= hi then [s[0]] else []) + Gone(s[1..], lo, hi)
  }

  lemma NamingPieces(x: Area, lo: nat, hi: nat, o: nat)
    requires lo < hi && x.start < x.end && (x.flags.share ==> !Splits(x, lo, hi))
    ensures Naming(Pieces(x, lo, hi), o) == if lo <= x.start && x.end <= hi then 0 else Names(x, o)
  {
    var p := Pieces(x, lo, hi);
    assert forall i :: 0 <= i < |p| ==> Names(p[i], o) == Names(x, o);
    if |p| == 1 {
      assert p[1..] == [];
    } else if |p| == 2 {
      assert Naming(p[1..], o) == Names(p[1], o) + Naming(p[1..][1..], o);
      assert p[1..][1..] == [];
    }
  }

  // An area that is not destroyed leaves exactly one that names its object, unless a shared area is split.
  lemma {:induction false} NamingCut(s: seq<Area>, lo: nat, hi: nat, o: nat)
    requires Disjoint(s) && lo < hi && SparesShared(s, lo, hi)
    ensures Naming(s, o) == Naming(Cut(s, lo, hi), o) + Naming(Gone(s, lo, hi), o)
    decreases |s|
  {
    if s != [] {
      NamingCut(s[1..], lo, hi, o);
      NamingPieces(s[0], lo, hi, o);
      NamingConcat(Pieces(s[0], lo, hi), Cut(s[1..], lo, hi), o);
      var g := if lo <= s[0].start && s[0].end <= hi then [s[0]] else [];
      NamingConcat(g, Gone(s[1..], lo, hi), o);
      assert [s[0]][1..] == [];
    }
  }

  lemma {:induction false} GoneBacked(s: seq<Area>, lo: nat, hi: nat)
    requires Backed(s)
    ensures Backed(Gone(s, lo, hi))
    decreases |s|
  {
    if s != [] {
      assert HasObject(s[0]);
      GoneBacked(s[1..], lo, hi);
    }
  }

  // shmem_ref; an object without references is destroyed
  function RefOf(refs: map<nat, nat>, o: nat): nat { if o in refs then refs[o] else 0 }

  function RefInc(refs: map<nat, nat>, o: nat): map<nat, nat> { refs[o := RefOf(refs, o) + 1] }

  function RefDec(refs: map<nat, nat>, o: nat): map<nat, nat> {
    if RefOf(refs, o) <= 1 then refs - {o} else refs[o := refs[o] - 1]
  }

  // vma_destroy's effect on shmem_ref; it does not test whether there is an object.
  function Released(refs: map<nat, nat>, x: Area): map<nat, nat>
    requires HasObject(x)
  {
    if x.flags.share then RefDec(refs, x.shmem.value) else refs
  }

  // Every object has as many references as areas name it, here and elsewhere, and exists while it has any.
  ghost predicate Counted(refs: map<nat, nat>, elsewhere: map<nat, nat>, s: seq<Area>) {
    (forall o: nat {:trigger RefOf(refs, o)} :: RefOf(refs, o) == RefOf(elsewhere, o) + Naming(s, o))
    && (forall o: nat {:trigger RefOf(refs, o)} :: o in refs ==> RefOf(refs, o) > 0)
  }

  ghost predicate Positive(refs: map<nat, nat>) { forall o :: o in refs ==> refs[o] > 0 }

  // shmem_ref_inc for one more area in front
  lemma CountedFront(refs: map<nat, nat>, elsewhere: map<nat, nat>, s: seq<Area>, i: nat)
    requires i < |s| && Counted(refs, elsewhere, s[i + 1..]) && HasObject(s[i])
    ensures Counted(if s[i].flags.share then RefInc(refs, s[i].shmem.value) else refs, elsewhere, s[i..])
  {
    var refs' := if s[i].flags.share then RefInc(refs, s[i].shmem.value) else refs;
    assert s[i..][1..] == s[i + 1..];
    forall q: nat ensures RefOf(refs', q) == RefOf(elsewhere, q) + Naming(s[i..], q) && (q in refs' ==> RefOf(refs', q) > 0) {
      assert RefOf(refs, q) == RefOf(elsewhere, q) + Naming(s[i + 1..], q);
    }
  }

  // The page table entries of an address space lie inside its areas.
  ghost predicate PtesMapped(pte: map<nat, nat>, s: seq<Area>) { forall a :: a in pte ==> Mapped(s, a) }

  ghost predicate AllWellFormed(s: seq<Area>) { forall i {:trigger WellFormed(s[i])} :: 0 <= i < |s| ==> WellFormed(s[i]) }
}
