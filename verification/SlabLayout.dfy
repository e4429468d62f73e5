/**
 How kern/mm/slab.c lays out the slabs of its thirteen caches.
 */
module SlabLayout {
  import opened Arithmetic
  import opened Dyadic
  import opened Units

  const KMALLOC_MAX_ORDER: nat := 10
  const MIN_SIZE_ORDER: nat := 5
  const MAX_SIZE_ORDER: nat := 17
  const SLAB_CACHE_NUM: nat := MAX_SIZE_ORDER - MIN_SIZE_ORDER + 1
  const ALIGN: nat := 16
  // sizeof(slab_t) and sizeof(kmem_bufctl_t)
  const SLAB_T: nat := 24
  const BUFCTL_T: nat := 4
  const BUFCTL_END: nat := 0xFFFF_FFFF

  // The fields of kmem_cache_t that init_kmem_cache computes; control is the index of slab_cachep
  datatype Conf = Conf(objsize: nat, num: nat, order: nat, offset: nat, offSlab: bool, control: nat)

  function ObjSize(i: nat): nat { Pow2(i + MIN_SIZE_ORDER) }

  function SlabSize(order: nat): nat { PGSIZE * Pow2(order) }

  // ROUNDUP(x, ALIGN)
  function AlignUp(x: nat): (r: nat)
    ensures x <= r < x + ALIGN
  {
    (x + ALIGN - 1) / ALIGN * ALIGN
  }

  // slab_mgmt_size
  function MgmtSize(num: nat): nat { AlignUp(SLAB_T + num * BUFCTL_T) }

  // The control block and the objects of a slab fit its pages.
  predicate Fits(num: nat, objsize: nat, size: nat) { MgmtSize(num) + num * objsize <= size }

  // No number of objects above (size - sizeof(slab_t)) / (objsize + sizeof(kmem_bufctl_t)) fits.
  lemma FirstGuess(n: nat, objsize: nat, size: nat)
    requires Fits(n, objsize, size) && size >= SLAB_T
    ensures n <= (size - SLAB_T) / (objsize + BUFCTL_T)
  {
    var d := objsize + BUFCTL_T;
    assert n * d == n * objsize + n * BUFCTL_T;
    DivAtLeast(n, d, size - SLAB_T);
  }

  lemma DivAtLeast(n: nat, d: nat, x: nat)
    requires d > 0 && n * d <= x
    ensures n <= x / d
  {
    var q := x / d;
    assert x == q * d + x % d;
    if n > q {
      MulMono(q + 1, n, d);
      NextMultiple(q, d);
    }
  }

  // cache_estimate: the largest number of objects that fits, and what is left over
  method CacheEstimate(order: nat, objsize: nat, offSlab: bool) returns (num: nat, remainder: nat)
    requires objsize > 0
    ensures offSlab ==> num == SlabSize(order) / objsize && num * objsize + remainder == SlabSize(order)
    ensures !offSlab ==> Fits(num, objsize, SlabSize(order)) && !Fits(num + 1, objsize, SlabSize(order))
                         && MgmtSize(num) + num * objsize + remainder == SlabSize(order)
  {
    var size := SlabSize(order);
    Pow2Mono(0, order);
    if offSlab {
      num := size / objsize;
      DivMod(size, objsize);
      remainder := size - num * objsize;
    } else {
      num := (size - SLAB_T) / (objsize + BUFCTL_T);
      assert !Fits(num + 1, objsize, size) by {
        if Fits(num + 1, objsize, size) {
          FirstGuess(num + 1, objsize, size);
        }
      }
      while !Fits(num, objsize, size)
        invariant !Fits(num + 1, objsize, size)
        decreases num
      {
        assert Fits(0, objsize, size);
        num := num - 1;
      }
      remainder := size - num * objsize - MgmtSize(num);
    }
  }

  // ---------- powers of two ----------

  lemma {:induction false} PowAdd(a: nat, b: nat)
    ensures Pow2(a + b) == Pow2(a) * Pow2(b)
    decreases b
  {
    if b > 0 {
      PowAdd(a, b - 1);
      TwiceProduct(Pow2(a), Pow2(b - 1));
    }
  }

  lemma PageIsPow()
    ensures PGSIZE == Pow2(12)
  {
  }

  lemma SlabSizePow(order: nat)
    ensures SlabSize(order) == Pow2(12 + order)
  {
    PageIsPow();
    PowAdd(12, order);
  }

  lemma ExactDiv(q: nat, d: nat)
    requires d > 0
    ensures (q * d) / d == q && (q * d) % d == 0
  {
    var x := q * d;
    DivMod(x, d);
    DivAtLeast(q, d, x);
    if x / d > q {
      MulMono(q + 1, x / d, d);
      NextMultiple(q, d);
    }
  }

  // A slab is a whole number of off-slab objects, or smaller than one.
  lemma WholeObjects(order: nat, i: nat)
    ensures order + 7 >= i ==> SlabSize(order) / ObjSize(i) == Pow2(order + 7 - i)
    ensures order + 7 >= i ==> SlabSize(order) == Pow2(order + 7 - i) * ObjSize(i)
    ensures order + 7 < i ==> SlabSize(order) / ObjSize(i) == 0
  {
    SlabSizePow(order);
    if order + 7 >= i {
      PowAdd(order + 7 - i, i + 5);
      ExactDiv(Pow2(order + 7 - i), ObjSize(i));
    } else {
      PowLess(12 + order, i + 5);
      SmallDiv(Pow2(12 + order), Pow2(i + 5));
    }
  }

  lemma SmallDiv(x: nat, d: nat)
    requires x < d
    ensures x / d == 0
  {
  }

  lemma {:induction false} PowLess(a: nat, b: nat)
    requires a < b
    ensures Pow2(a) < Pow2(b)
  {
    Pow2Mono(a + 1, b);
  }

  // ---------- the layout of a cache ----------

  // What is left over on-slab is less than an object and its control.
  lemma LeftOver(num: nat, objsize: nat, size: nat, remainder: nat)
    requires MgmtSize(num) + num * objsize + remainder == size && !Fits(num + 1, objsize, size)
    ensures remainder < objsize + BUFCTL_T + ALIGN
  {
    NextMultiple(num, objsize);
    NextMultiple(num, BUFCTL_T);
  }

  // What calculate_slab_order settles on
  ghost predicate Chosen(num: nat, order: nat, left: nat, i: nat) {
    num > 0 && order <= KMALLOC_MAX_ORDER
    && if i >= 4 then num <= 8 && left == 0 && num * ObjSize(i) == SlabSize(order)
       else order == 0 && Fits(num, ObjSize(i), PGSIZE) && !Fits(num + 1, ObjSize(i), PGSIZE)
  }

  // calculate_slab_order never runs out of orders for these sizes, nor hits the off-slab limit.
  method CalculateSlabOrder(i: nat) returns (num: nat, order: nat, left: nat)
    requires i < SLAB_CACHE_NUM
    ensures Chosen(num, order, left, i)
  {
    var objsize, offSlab := ObjSize(i), i >= 4;
    order := 0;
    while true
      invariant order == 0 || order + 7 <= i
      decreases i - order
    {
      num, left := CacheEstimate(order, objsize, offSlab);
      SmallCaches(i, order, num, left);
      if num != 0 {
        if offSlab {
          // the limit on the number of off-slab objects
          assert num <= (objsize - SLAB_T) / BUFCTL_T;
        }
        if left * 8 <= SlabSize(order) {
          return;
        }
      }
      order := order + 1;
    }
  }

  // The first order at which an object fits is taken.
  lemma SmallCaches(i: nat, order: nat, num: nat, left: nat)
    requires i < SLAB_CACHE_NUM && (order == 0 || order + 7 <= i)
    requires i >= 4 ==> num == SlabSize(order) / ObjSize(i) && num * ObjSize(i) + left == SlabSize(order)
    requires i < 4 ==> Fits(num, ObjSize(i), SlabSize(order)) && !Fits(num + 1, ObjSize(i), SlabSize(order))
                       && MgmtSize(num) + num * ObjSize(i) + left == SlabSize(order)
    ensures i >= 4 && order + 7 < i ==> num == 0
    ensures i < 4 || order + 7 >= i ==> Chosen(num, order, left, i) && left * 8 <= SlabSize(order)
    ensures i >= 4 ==> num <= (ObjSize(i) - SLAB_T) / BUFCTL_T
  {
    Pow2Mono(5, i + 5);
    if i < 4 {
      Pow2Mono(i + 5, 8);
      assert SlabSize(0) == PGSIZE;
      LeftOver(num, ObjSize(i), PGSIZE, left);
      OneFits(ObjSize(i));
    } else {
      WholeObjects(order, i);
      Pow2Mono(9, i + 5);
      if order + 7 >= i {
        Pow2Mono(order + 7 - i, 3);
      }
    }
  }

  lemma OneFits(objsize: nat)
    requires objsize <= 256
    ensures Fits(1, objsize, PGSIZE)
  {
  }

  // getorder of slab.c
  method GetOrder(n: nat) returns (order: nat)
    requires n <= Pow2(MAX_SIZE_ORDER)
    ensures MIN_SIZE_ORDER <= order <= MAX_SIZE_ORDER && n <= Pow2(order) && (order > MIN_SIZE_ORDER ==> Pow2(order - 1) < n)
  {
    order := MIN_SIZE_ORDER;
    while n > Pow2(order)
      invariant MIN_SIZE_ORDER <= order <= MAX_SIZE_ORDER && (order > MIN_SIZE_ORDER ==> Pow2(order - 1) < n)
      decreases MAX_SIZE_ORDER - order
    {
      order := order + 1;
    }
  }

  // Objects and control block lie inside the slab without overlapping, or the control block is an object of an on-slab
  // cache that is large enough.
  ghost predicate WellLaid(c: Conf, i: nat) {
    c.objsize == ObjSize(i) && 0 < c.num < BUFCTL_END && c.order <= KMALLOC_MAX_ORDER
    && c.offset + c.num * c.objsize <= SlabSize(c.order) && (c.offSlab <==> i >= 4) && (i < 4 ==> c.order == 0)
    && if c.offSlab then c.offset == 0 && c.control < 4 && MgmtSize(c.num) <= ObjSize(c.control)
       else c.offset == MgmtSize(c.num)
  }

  // The sizes are aligned, and those from 512 bytes on put the control block off the slab.
  lemma CacheSize(i: nat)
    requires i < SLAB_CACHE_NUM
    ensures AlignUp(ObjSize(i)) == ObjSize(i) >= 32 && (ObjSize(i) >= PGSIZE / 8 <==> i >= 4)
  {
    PowAdd(4, i + 1);
    SizeAligned(Pow2(i + 1));
    Pow2Mono(5, i + 5);
    if i >= 4 {
      Pow2Mono(9, i + 5);
    } else {
      Pow2Mono(i + 5, 8);
    }
  }

  // init_kmem_cache
  method InitKmemCache(i: nat) returns (c: Conf)
    requires i < SLAB_CACHE_NUM
    ensures WellLaid(c, i)
  {
    var objsize := AlignUp(ObjSize(i));
    CacheSize(i);
    var offSlab := objsize >= PGSIZE / 8;
    var num, order, left := CalculateSlabOrder(i);
    var mgmt := MgmtSize(num);
    if offSlab && left >= mgmt {
      offSlab := false;
    }
    if offSlab {
      var control := ControlCache(num);
      c := Conf(objsize, num, order, 0, true, control);
    } else {
      FewObjects(num, objsize);
      c := Conf(objsize, num, order, mgmt, false, 0);
    }
  }

  // The cache of an off-slab control block
  method ControlCache(num: nat) returns (control: nat)
    requires num <= 8
    ensures control < 4 && MgmtSize(num) <= ObjSize(control)
  {
    assert MgmtSize(num) <= 64 == Pow2(6);
    Pow2Mono(6, MAX_SIZE_ORDER);
    var o := GetOrder(MgmtSize(num));
    if o >= 7 {
      Pow2Mono(6, o - 1);
    }
    control := o - MIN_SIZE_ORDER;
  }

  lemma SizeAligned(k: nat)
    ensures AlignUp(16 * k) == 16 * k
  {
  }

  lemma FewObjects(num: nat, objsize: nat)
    requires Fits(num, objsize, PGSIZE) && objsize > 0
    ensures num <= PGSIZE
  {
    MulMono(1, objsize, num);
  }
}
