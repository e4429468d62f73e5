/**
 The chunks of a shared memory object (kern/mm/shmem.c): a sorted list of nodes, each with an array of 1024 entries, and a
 one-node cache.
 */
module SharedMemory {
  import opened Options
  import opened Lists
  import opened Units

  const SHMN_NENTRY: nat := 1024
  const CHUNK: nat := PGSIZE * SHMN_NENTRY

  // shmn_t: the bytes [start, end) of the object, and the page of each of its pages that has one
  datatype Shmn = Shmn(start: nat, end: nat, entry: seq<Option<nat>>)

  // A pointer to an entry: a node and an index; or the overlap check of insert_shmn fails
  datatype Slot = Null | At(node: nat, index: nat) | Panic

  // ROUNDDOWN(addr, PGSIZE * SHMN_NENTRY)
  function ChunkOf(addr: nat): (s: nat)
    ensures s <= addr < s + CHUNK && s % CHUNK == 0
  {
    addr / CHUNK * CHUNK
  }

  // What shmn_create makes; its end is a 32-bit sum.
  function Fresh(start: nat): Shmn { Shmn(start, (start + CHUNK) % WORD, seq(SHMN_NENTRY, _ => None)) }

  predicate Covers(x: Shmn, addr: nat) { x.start <= addr < x.end }

  // A new chunk covers the address it was made for, except in the last 4 MB of the 32-bit range, where its end wraps to 0.
  lemma FreshCovers(addr: Address)
    ensures Covers(Fresh(ChunkOf(addr)), addr) <==> addr < WORD - CHUNK
  {
    assert WORD == 1024 * CHUNK;
  }

  ghost predicate Aligned(x: Shmn) { x.start % CHUNK == 0 && |x.entry| == SHMN_NENTRY }

  ghost predicate NodeOk(x: Shmn) { Aligned(x) && x.end == x.start + CHUNK < WORD }

  lemma PageStart(addr: Address)
    ensures var a := addr - addr % PGSIZE;
            a % PGSIZE == 0 && a / PGSIZE == addr / PGSIZE && (a >= WORD - CHUNK <==> addr >= WORD - CHUNK)
  {
  }

  // The chunk of the last 4 MB
  ghost predicate WrappedNode(x: Shmn) { x.start == WORD - CHUNK && x.end == 0 && |x.entry| == SHMN_NENTRY }

  // A chunk made for an address in the last 4 MB covers no address at all.
  lemma WrappedChunk(addr: Address, other: Address)
    requires addr >= WORD - CHUNK
    ensures WrappedNode(Fresh(ChunkOf(addr))) && !Covers(Fresh(ChunkOf(addr)), other)
  {
    assert WORD == 1024 * CHUNK;
    assert addr / CHUNK == 1023;
  }

  // check_shmn_overlap
  predicate NoOverlap(prev: Shmn, next: Shmn) { prev.start < prev.end <= next.start < next.end }

  // A well formed chunk covers an address exactly if it starts where that address's chunk does.
  lemma CoversByStart(x: Shmn, addr: nat)
    requires NodeOk(x)
    ensures Covers(x, addr) <==> x.start == ChunkOf(addr)
  {
    var q := x.start / CHUNK;
    assert x.start == q * CHUNK;
  }

  // Chunks that start at different places do not overlap.
  lemma ChunksApart(x: Shmn, y: Shmn)
    requires NodeOk(x) && NodeOk(y) && x.start < y.start
    ensures x.end <= y.start
  {
    CoversByStart(x, y.start);
  }

  ghost predicate Listed(nodes: seq<Shmn>, list: seq<nat>) {
    forall i {:trigger list[i]} :: 0 <= i < |list| ==> list[i] < |nodes| && NodeOk(nodes[list[i]])
  }

  // Sorted and disjoint
  ghost predicate Sorted(nodes: seq<Shmn>, list: seq<nat>)
    requires Listed(nodes, list)
  {
    forall i, j :: 0 <= i < j < |list| ==> nodes[list[i]].end <= nodes[list[j]].start
  }

  // Aligned nodes in strictly ascending order
  ghost predicate Ordered(nodes: seq<Shmn>, list: seq<nat>) {
    (forall i {:trigger list[i]} :: 0 <= i < |list| ==> list[i] < |nodes| && Aligned(nodes[list[i]]))
    && (forall i, j :: 0 <= i < j < |list| ==> nodes[list[i]].start < nodes[list[j]].start)
  }

  // Page idx of the object is page.
  ghost predicate Holds(nodes: seq<Shmn>, list: seq<nat>, idx: nat, page: nat) {
    exists i :: 0 <= i < |list| && list[i] < |nodes| && HoldsAt(nodes[list[i]], idx, page)
  }

  ghost predicate HoldsAt(x: Shmn, idx: nat, page: nat) {
    var lo := x.start / PGSIZE;
    lo <= idx < lo + |x.entry| && x.entry[idx - lo] == Some(page)
  }

  lemma Spliced(list: seq<nat>, p: nat, r: nat)
    requires p <= |list|
    ensures var l := list[..p] + [r] + list[p..];
            |l| == |list| + 1 && forall i :: 0 <= i < |l| ==> l[i] == if i < p then list[i] else if i == p then r else list[i - 1]
  {
  }

  // The new chunk lies between its neighbours.
  lemma Between(nodes: seq<Shmn>, list: seq<nat>, p: nat, r: nat, i: nat)
    requires Listed(nodes, list) && Sorted(nodes, list) && p <= |list| && r < |nodes| && NodeOk(nodes[r]) && i < |list|
    requires nodes[list[i]].start != nodes[r].start
    requires i < p ==> nodes[list[i]].start <= nodes[r].start
    requires p < |list| ==> nodes[list[p]].start > nodes[r].start
    ensures if i < p then nodes[list[i]].end <= nodes[r].start else nodes[r].end <= nodes[list[i]].start
  {
    if i < p {
      ChunksApart(nodes[list[i]], nodes[r]);
    } else {
      assert i > p ==> nodes[list[p]].end <= nodes[list[i]].start;
      ChunksApart(nodes[r], nodes[list[i]]);
    }
  }

  lemma InsertedSorted(nodes: seq<Shmn>, list: seq<nat>, p: nat, r: nat)
    requires Listed(nodes, list) && Sorted(nodes, list) && p <= |list| && r < |nodes| && NodeOk(nodes[r])
    requires forall i :: 0 <= i < |list| ==> nodes[list[i]].start != nodes[r].start
    requires forall i :: 0 <= i < p ==> nodes[list[i]].start <= nodes[r].start
    requires p < |list| ==> nodes[list[p]].start > nodes[r].start
    ensures var l := list[..p] + [r] + list[p..]; Listed(nodes, l) && Sorted(nodes, l)
    ensures p > 0 ==> nodes[list[p - 1]].end <= nodes[r].start
    ensures p < |list| ==> nodes[r].end <= nodes[list[p]].start
  {
    Spliced(list, p, r);
    forall i | 0 <= i < |list|
      ensures if i < p then nodes[list[i]].end <= nodes[r].start else nodes[r].end <= nodes[list[i]].start
    {
      Between(nodes, list, p, r, i);
    }
  }

  lemma FreshNode(nodes: seq<Shmn>, list: seq<nat>, a: Address)
    requires a < WORD - CHUNK && Listed(nodes, list) && forall i :: 0 <= i < |list| ==> !Covers(nodes[list[i]], a)
    ensures NodeOk(Fresh(ChunkOf(a))) && Covers(Fresh(ChunkOf(a)), a)
    ensures forall i :: 0 <= i < |list| ==> nodes[list[i]].start != ChunkOf(a)
  {
    FreshCovers(a);
    forall i | 0 <= i < |list| ensures nodes[list[i]].start != ChunkOf(a) {
      CoversByStart(nodes[list[i]], a);
    }
  }

  // A node that is not linked changes nothing.
  lemma UnlinkedHoldsNothing(nodes: seq<Shmn>, list: seq<nat>, x: Shmn, idx: nat, page: nat)
    requires Ordered(nodes, list)
    ensures Holds(nodes + [x], list, idx, page) <==> Holds(nodes, list, idx, page)
  {
    assert forall i :: 0 <= i < |list| ==> (nodes + [x])[list[i]] == nodes[list[i]];
  }

  // Nor does a node without entries, wherever it is linked.
  lemma FreshHoldsNothing(nodes: seq<Shmn>, list: seq<nat>, p: nat, r: nat, idx: nat, page: nat)
    requires p <= |list| && r < |nodes| && forall i :: 0 <= i < |nodes[r].entry| ==> nodes[r].entry[i].None?
    ensures Holds(nodes, list[..p] + [r] + list[p..], idx, page) <==> Holds(nodes, list, idx, page)
  {
    var l := list[..p] + [r] + list[p..];
    if Holds(nodes, list, idx, page) {
      var i :| 0 <= i < |list| && list[i] < |nodes| && HoldsAt(nodes[list[i]], idx, page);
      assert l[if i < p then i else i + 1] == list[i];
    }
    if Holds(nodes, l, idx, page) {
      var i :| 0 <= i < |l| && l[i] < |nodes| && HoldsAt(nodes[l[i]], idx, page);
      assert i != p;
      assert list[if i < p then i else i - 1] == l[i];
    }
  }

  lemma NothingNew(nodes: seq<Shmn>, list: seq<nat>, start: nat, linked: bool, p: nat, l: seq<nat>)
    requires Ordered(nodes, list) && if linked then p <= |list| && l == list[..p] + [|nodes|] + list[p..] else l == list
    ensures forall idx: nat, q: nat :: Holds(nodes + [Fresh(start)], l, idx, q) <==> Holds(nodes, list, idx, q)
  {
    var m := nodes + [Fresh(start)];
    forall idx: nat, q: nat ensures Holds(m, l, idx, q) <==> Holds(nodes, list, idx, q) {
      UnlinkedHoldsNothing(nodes, list, Fresh(start), idx, q);
      if linked {
        FreshHoldsNothing(m, list, p, |nodes|, idx, q);
      }
    }
  }

  lemma OneCover(nodes: seq<Shmn>, list: seq<nat>, k: nat, addr: nat)
    requires Listed(nodes, list) && Sorted(nodes, list) && k < |list| && Covers(nodes[list[k]], addr)
    ensures forall i :: 0 <= i < |list| && Covers(nodes[list[i]], addr) ==> i == k
  {
  }

  lemma InsertedIn(list: seq<nat>, p: nat, r: nat)
    requires NoDup(list) && p <= |list| && r !in list
    ensures var l := list[..p] + [r] + list[p..]; NoDup(l) && forall x :: x in list ==> x in l
  {
    var l := list[..p] + [r] + list[p..];
    forall x | x in list ensures x in l {
      var j :| 0 <= j < |list| && list[j] == x;
      assert l[if j < p then j else j + 1] == x;
    }
  }

  // The bytes of the object whose entries the node has
  ghost predicate Spans(x: Shmn, addr: nat) { x.start <= addr < x.start + CHUNK }

  // Every address of a page has the entry of the page.
  lemma WithinPage(start: nat, addr: nat)
    requires start % CHUNK == 0 && start <= addr - addr % PGSIZE < start + CHUNK
    ensures addr < start + CHUNK && (addr - start) / PGSIZE == (addr - addr % PGSIZE - start) / PGSIZE
  {
    var n, v := start / CHUNK * SHMN_NENTRY, addr / PGSIZE;
    assert start == n * PGSIZE && addr - addr % PGSIZE == v * PGSIZE;
    PageQuotient(n, v, addr % PGSIZE);
  }

  lemma PageQuotient(n: nat, v: nat, r: nat)
    requires n <= v && r < PGSIZE
    ensures (v * PGSIZE + r - n * PGSIZE) / PGSIZE == v - n == (v * PGSIZE - n * PGSIZE) / PGSIZE
  {
  }

  lemma CoveredFits(x: Shmn, addr: nat)
    requires NodeOk(x) && Covers(x, addr)
    ensures Spans(x, addr) && addr < WORD - CHUNK
  {
    assert x.start == x.start / CHUNK * CHUNK && WORD == 1024 * CHUNK;
  }

  // The only node that can hold page idx is the one that spans it.
  lemma HoldsBySpan(nodes: seq<Shmn>, list: seq<nat>, k: nat, addr: nat, page: nat)
    requires Ordered(nodes, list) && k < |list| && Spans(nodes[list[k]], addr) && addr % PGSIZE == 0
    ensures Holds(nodes, list, addr / PGSIZE, page) <==> HoldsAt(nodes[list[k]], addr / PGSIZE, page)
  {
    if Holds(nodes, list, addr / PGSIZE, page) {
      var i :| 0 <= i < |list| && list[i] < |nodes| && HoldsAt(nodes[list[i]], addr / PGSIZE, page);
      PageInChunk(nodes[list[i]], addr);
      SameChunk(nodes[list[i]].start, nodes[list[k]].start, addr);
      assert i == k;
    }
  }

  lemma SameChunk(s: nat, t: nat, addr: nat)
    requires s % CHUNK == 0 && t % CHUNK == 0 && s <= addr < s + CHUNK && t <= addr < t + CHUNK
    ensures s == t
  {
    assert s == s / CHUNK * CHUNK && t == t / CHUNK * CHUNK;
  }

  lemma PageInChunk(x: Shmn, addr: nat)
    requires Aligned(x) && addr % PGSIZE == 0
    ensures x.start / PGSIZE <= addr / PGSIZE < x.start / PGSIZE + SHMN_NENTRY <==> Spans(x, addr)
    ensures Spans(x, addr) ==> (addr - x.start) / PGSIZE == addr / PGSIZE - x.start / PGSIZE
  {
    assert CHUNK % PGSIZE == 0;
    assert x.start == x.start / CHUNK * CHUNK;
    assert x.start % PGSIZE == 0;
  }

  // Entering a page in an empty entry of a listed node
  lemma EnterHolds(nodes: seq<Shmn>, list: seq<nat>, k: nat, at: nat, page: nat, idx: nat, q: nat)
    requires Ordered(nodes, list) && NoDup(list) && k < |list| && at < |nodes[list[k]].entry|
             && nodes[list[k]].entry[at].None?
    ensures var x := nodes[list[k]];
            Holds(nodes[list[k] := x.(entry := x.entry[at := Some(page)])], list, idx, q) <==>
            Holds(nodes, list, idx, q) || (idx == x.start / PGSIZE + at && q == page)
  {
    var x := nodes[list[k]];
    var lo := x.start / PGSIZE;
    var y := x.(entry := x.entry[at := Some(page)]);
    var m := nodes[list[k] := y];
    assert HoldsAt(y, idx, q) <==> HoldsAt(x, idx, q) || (idx == lo + at && q == page);
    if Holds(nodes, list, idx, q) {
      var i :| 0 <= i < |list| && list[i] < |nodes| && HoldsAt(nodes[list[i]], idx, q);
      assert HoldsAt(m[list[i]], idx, q);
    }
    if idx == lo + at && q == page {
      assert HoldsAt(m[list[k]], idx, q);
    }
    if Holds(m, list, idx, q) {
      var i :| 0 <= i < |list| && list[i] < |m| && HoldsAt(m[list[i]], idx, q);
      assert i != k ==> HoldsAt(nodes[list[i]], idx, q);
    }
  }

  class Shmem {
    const len: nat
    var nodes: seq<Shmn>
    var list: seq<nat>
    var cache: Option<nat>

    ghost predicate Good()
      reads this
    {
      NoDup(list) && Listed(nodes, list) && Sorted(nodes, list) && (cache.Some? ==> cache.value in list)
    }

    // The one chunk is that of the last 4 MB.
    ghost predicate Wrapped()
      reads this
    {
      |list| == 1 && list[0] < |nodes| && WrappedNode(nodes[list[0]]) && cache.None?
    }

    ghost predicate Valid()
      reads this
    {
      Good() || Wrapped()
    }

    lemma InOrder()
      requires Valid()
      ensures NoDup(list) && Ordered(nodes, list)
    {
      assert Good() ==> forall i, j :: 0 <= i < j < |list| ==> nodes[list[i]].end <= nodes[list[j]].start;
    }

    // No chunk covers the address.
    ghost predicate Uncovered(a: nat)
      requires Valid()
      reads this
    {
      forall i :: 0 <= i < |list| ==> !Covers(nodes[list[i]], a)
    }

    // shmem_create
    constructor (len: nat)
      ensures Good() && this.len == len && list == []
    {
      this.len := len;
      nodes, list, cache := [], [], None;
    }

    // find_shmn: the chunk that covers addr, whether the cache or the scan finds it
    method FindShmn(addr: nat) returns (r: Option<nat>, ghost k: nat)
      requires Valid()
      modifies this`cache
      ensures Valid() && (Wrapped() <==> old(Wrapped()))
      ensures r.None? <==> Uncovered(addr)
      ensures r.Some? ==> Good() && k < |list| && r.value == list[k] && Covers(nodes[list[k]], addr)
      ensures r.Some? ==> forall i :: 0 <= i < |list| && Covers(nodes[list[i]], addr) ==> i == k
    {
      r, k := cache, 0;
      if r.Some? {
        k :| k < |list| && list[k] == r.value;
      }
      if !(r.Some? && Covers(nodes[r.value], addr)) {
        r, k := ScanShmn(addr);
      }
      if r.Some? {
        OneCover(nodes, list, k, addr);
        cache := r;
      }
    }

    // The scan of find_shmn
    method ScanShmn(addr: nat) returns (r: Option<nat>, ghost k: nat)
      requires Valid()
      ensures r.None? <==> Uncovered(addr)
      ensures r.Some? ==> Good() && k < |list| && r.value == list[k] && Covers(nodes[list[k]], addr)
    {
      var i := 0;
      while i < |list|
        invariant 0 <= i <= |list|
        invariant forall j :: 0 <= j < i ==> !Covers(nodes[list[j]], addr)
      {
        if Covers(nodes[list[i]], addr) {
          return Some(list[i]), i;
        }
        i := i + 1;
      }
      return None, 0;
    }

    // insert_shmn of the new chunk for address a; not ok when an overlap check fails
    method InsertShmn(r: nat, ghost a: Address) returns (ok: bool, ghost p: nat)
      requires Valid() && r < |nodes| && r !in list && nodes[r] == Fresh(ChunkOf(a)) && Uncovered(a)
      modifies this`list
      ensures ok <==> old(list) == [] || (a < WORD - CHUNK && old(Good()))
      ensures !ok ==> list == old(list)
      ensures ok ==> p <= |old(list)| && list == old(list)[..p] + [r] + old(list)[p..]
      ensures ok ==> if a < WORD - CHUNK then Good() else Wrapped()
    {
      var i := 0;
      while i < |list| && nodes[list[i]].start <= nodes[r].start
        invariant 0 <= i <= |list|
        invariant forall j :: 0 <= j < i ==> nodes[list[j]].start <= nodes[r].start
      {
        i := i + 1;
      }
      p := i;
      assert |list| > 1 ==> Good();
      if a >= WORD - CHUNK {
        WrappedChunk(a, a);
      } else if Good() {
        FreshNode(nodes, list, a);
        InsertedSorted(nodes, list, i, r);
        InsertedIn(list, i, r);
      }
      if (i > 0 && !NoOverlap(nodes[list[i - 1]], nodes[r])) || (i < |list| && !NoOverlap(nodes[r], nodes[list[i]])) {
        return false, p;
      }
      list := list[..i] + [r] + list[i..];
      ok := true;
    }

    // shmem_get_entry. room says whether the allocations of shmn_create succeed, page is the result of alloc_page. The entry
    // found is the one for addr; it, and nothing else, may have been given a page. A chunk for the last 4 MB can only be
    // the first, and then the only one: with it in the list every further insertion fails the overlap check.
    method GetEntry(addr: Address, create: bool, room: bool, page: Option<nat>) returns (slot: Slot)
      requires Valid() && addr < len
      modifies this
      ensures Valid() && (Wrapped() <==> old(Wrapped()) || (slot.At? && addr >= WORD - CHUNK))
      ensures slot.Null? <==> (!create || !room) && old(Uncovered(addr - addr % PGSIZE))
      ensures slot.Panic? <==> create && room && old(Uncovered(addr - addr % PGSIZE)) && old(list) != []
                               && (addr >= WORD - CHUNK || old(Wrapped()))
      ensures !slot.At? ==> list == old(list) && (slot.Null? ==> nodes == old(nodes))
      ensures slot.At? ==> slot.node in list && slot.node < |nodes| && Spans(nodes[slot.node], addr)
                           && slot.index == (addr - nodes[slot.node].start) / PGSIZE < |nodes[slot.node].entry|
      ensures slot.At? ==> forall q: nat ::
                             Holds(nodes, list, addr / PGSIZE, q) <==> nodes[slot.node].entry[slot.index] == Some(q)
      ensures forall idx: nat, q: nat :: Holds(nodes, list, idx, q) <==>
                old(Holds(nodes, list, idx, q))
                || (create && slot.At? && idx == addr / PGSIZE && page == Some(q) && !old(Entered(addr / PGSIZE)))
    {
      PageStart(addr);
      slot := PageEntry(addr - addr % PGSIZE, create, room, page);
      if slot.At? {
        InOrder();
        WithinPage(nodes[slot.node].start, addr);
      }
    }

    // The rest of shmem_get_entry, on the address of a page
    method PageEntry(a: Address, create: bool, room: bool, page: Option<nat>) returns (slot: Slot)
      requires Valid() && a % PGSIZE == 0
      modifies this
      ensures Valid() && (Wrapped() <==> old(Wrapped()) || (slot.At? && a >= WORD - CHUNK))
      ensures slot.Null? <==> (!create || !room) && old(Uncovered(a))
      ensures slot.Panic? <==> create && room && old(Uncovered(a)) && old(list) != [] && (a >= WORD - CHUNK || old(Wrapped()))
      ensures !slot.At? ==> list == old(list) && (slot.Null? ==> nodes == old(nodes))
      ensures slot.At? ==> slot.node in list && slot.node < |nodes| && Spans(nodes[slot.node], a)
                           && slot.index == (a - nodes[slot.node].start) / PGSIZE < |nodes[slot.node].entry|
      ensures slot.At? ==> forall q: nat :: Holds(nodes, list, a / PGSIZE, q) <==> nodes[slot.node].entry[slot.index] == Some(q)
      ensures forall idx: nat, q: nat :: Holds(nodes, list, idx, q) <==>
                old(Holds(nodes, list, idx, q))
                || (create && slot.At? && idx == a / PGSIZE && page == Some(q) && !old(Entered(a / PGSIZE)))
    {
      var r;
      ghost var k;
      r, k := FindShmn(a);
      if r.None? {
        if !create || !room {
          return Null;
        }
        r, k := AddShmn(a);
        if r.None? {
          return Panic;
        }
      } else {
        CoveredFits(nodes[r.value], a);
      }
      assert Entered(a / PGSIZE) <==> old(Entered(a / PGSIZE));
      slot := Fill(r.value, a, create, page, k);
    }

    // Page idx of the object has a page.
    ghost predicate Entered(idx: nat)
      reads this
    {
      exists q: nat :: Holds(nodes, list, idx, q)
    }

    // The entry of the chunk found, given a page if it has none
    method Fill(r: nat, a: nat, create: bool, page: Option<nat>, ghost k: nat) returns (slot: Slot)
      requires Valid() && k < |list| && r == list[k] && Spans(nodes[r], a) && a % PGSIZE == 0
      modifies this`nodes
      ensures Valid() && (Wrapped() <==> old(Wrapped())) && slot.At? && r in list && slot.node == r
      ensures Spans(nodes[r], a) && slot.index == (a - nodes[r].start) / PGSIZE < |nodes[r].entry|
      ensures forall q: nat :: Holds(nodes, list, a / PGSIZE, q) <==> nodes[r].entry[slot.index] == Some(q)
      ensures forall idx: nat, q: nat :: Holds(nodes, list, idx, q) <==>
                old(Holds(nodes, list, idx, q)) || (create && idx == a / PGSIZE && page == Some(q) && !old(Entered(a / PGSIZE)))
    {
      var index := (a - nodes[r].start) / PGSIZE;
      InOrder();
      PageInChunk(nodes[r], a);
      forall q: nat ensures Holds(nodes, list, a / PGSIZE, q) <==> nodes[r].entry[index] == Some(q) {
        HoldsBySpan(nodes, list, k, a, q);
      }
      if nodes[r].entry[index].None? {
        assert !Entered(a / PGSIZE);
        if create && page.Some? {
          EnterPage(r, index, a, page.value, k);
        }
      } else {
        assert Holds(nodes, list, a / PGSIZE, nodes[r].entry[index].value);
        assert Entered(a / PGSIZE);
      }
      slot := At(r, index);
    }

    // shmn_create and insert_shmn; nothing when an overlap check fails
    method AddShmn(a: Address) returns (r: Option<nat>, ghost k: nat)
      requires Valid() && Uncovered(a)
      modifies this`nodes, this`list
      ensures Valid() && (r.None? <==> old(list) != [] && (a >= WORD - CHUNK || old(Wrapped())))
      ensures r.None? ==> list == old(list) && (Wrapped() <==> old(Wrapped()))
      ensures r.Some? ==> k < |list| && r.value == list[k] && Spans(nodes[list[k]], a) && (Wrapped() <==> a >= WORD - CHUNK)
      ensures forall idx: nat, q: nat :: Holds(nodes, list, idx, q) <==> old(Holds(nodes, list, idx, q))
    {
      InOrder();
      var start := ChunkOf(a);
      nodes := nodes + [Fresh(start)];
      var ok;
      ok, k := InsertShmn(|nodes| - 1, a);
      r := if ok then Some(|nodes| - 1) else None;
      NothingNew(old(nodes), old(list), start, ok, k, list);
    }

    // shmn->entry[index] = (page2pa(page) | PTE_P)
    method EnterPage(r: nat, index: nat, a: nat, page: nat, ghost k: nat)
      requires Valid() && k < |list| && r == list[k] && Spans(nodes[r], a) && a % PGSIZE == 0
      requires index == a / PGSIZE - nodes[r].start / PGSIZE < SHMN_NENTRY && nodes[r].entry[index].None?
      modifies this`nodes
      ensures Valid() && (Wrapped() <==> old(Wrapped())) && |nodes| == |old(nodes)|
      ensures nodes[r] == old(nodes)[r].(entry := old(nodes)[r].entry[index := Some(page)])
      ensures forall idx: nat, q: nat :: Holds(nodes, list, idx, q) <==>
                old(Holds(nodes, list, idx, q)) || (idx == a / PGSIZE && q == page)
    {
      InOrder();
      ghost var y := nodes[r].(entry := nodes[r].entry[index := Some(page)]);
      forall idx: nat, q: nat
        ensures Holds(nodes[r := y], list, idx, q) <==> Holds(nodes, list, idx, q) || (idx == a / PGSIZE && q == page)
      {
        EnterHolds(nodes, list, k, index, page, idx, q);
      }
      nodes := nodes[r := nodes[r].(entry := nodes[r].entry[index := Some(page)])];
    }
  }
}
