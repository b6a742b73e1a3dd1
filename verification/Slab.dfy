/**
 The slab cache of kernel/slab_cache.c on values, on top of the buddy allocator:
 which slabs are on the partial and full lists and which objects are live.
 A slab is named by its first page frame.
 */
module Slab {
  import opened Bits
  import opened Words
  import opened Seqs
  import opened Buddy
  import opened SlabLayout

  datatype Cache = Cache(size: nat, count: nat, partial: seq<nat>, full: seq<nat>, used: map<nat, set<nat>>)
  datatype System = System(buddy: State, cache: Cache)

  function SlabAddress(p: nat): nat {
    PAGE_OFFSET + p * PAGE_SIZE
  }

  function ObjectAddress(c: Cache, p: nat, i: nat): int {
    ObjectAt(SlabAddress(p), c.size, c.count, i)
  }

  predicate IsLive(c: Cache, p: nat, i: nat) {
    p in c.used && i in c.used[p]
  }

  // The counter slab->free.
  function FreeCount(c: Cache, p: nat): int
    requires p in c.used
  {
    c.count - |c.used[p]|
  }

  // Every slab is on one list: full when its counter is zero, else partial.
  ghost predicate Filed(c: Cache) {
    && Distinct(c.partial) && Distinct(c.full)
    && (forall p :: p in c.used <==> p in c.partial || p in c.full)
    && (forall p :: p in c.partial ==> p in c.used && FreeCount(c, p) > 0)
    && (forall p :: p in c.full ==> p in c.used && FreeCount(c, p) == 0)
  }

  ghost predicate InRange(c: Cache) {
    forall p: nat, i: nat :: IsLive(c, p, i) ==> i < c.count
  }

  ghost predicate CacheInv(c: Cache) {
    && c.size >= 1 && c.count >= 1 && Fits(SLAB_SPACE, c.size, c.count)
    && Filed(c) && InRange(c)
  }

  // Every slab is a live block of two pages.
  ghost predicate SlabsAreLive(buddy: State, c: Cache) {
    forall p :: p in c.used ==> p in buddy.live && buddy.live[p] == SLAB_ORDER
  }

  ghost predicate SystemInv(y: System) {
    Inv(y.buddy) && CacheInv(y.cache) && SlabsAreLive(y.buddy, y.cache)
  }

  function Create(buddy: State, size: nat, align: nat): System
    requires 1 <= align < WORD_RANGE
  {
    var objectSize := ObjectSize(size, align);
    System(buddy, Cache(objectSize, ObjectCount(objectSize, SLAB_SPACE), [], [], map[]))
  }

  // A fresh slab joins the partial list with no object in use.
  function AddSlab(c: Cache, p: nat): Cache {
    c.(partial := c.partial + [p], used := c.used[p := {}])
  }

  function Grow(y: System): System
    requires |y.buddy.lists| == MAX_ORDER
  {
    var (b, r) := Alloc(y.buddy, SLAB_ORDER);
    match r
    case None => y.(buddy := b)
    case Some(p) => System(b, AddSlab(y.cache, p))
  }

  // The lowest index at or above i that is not in u, or n.
  function FirstUnused(u: set<nat>, i: nat, n: nat): (r: nat)
    requires i <= n
    ensures i <= r <= n && (r < n ==> r !in u)
    ensures forall j :: i <= j < r ==> j in u
    decreases n - i
  {
    if i < n && i in u then FirstUnused(u, i + 1, n) else i
  }

  // What the operations need to be defined at all.
  ghost predicate Defined(y: System) {
    |y.buddy.lists| == MAX_ORDER && forall p :: p in y.cache.partial ==> p in y.cache.used
  }

  // Takes the lowest free object of the first partial slab.
  function Take(c: Cache): (r: (Cache, nat, nat))
    requires c.partial != [] && c.partial[0] in c.used
  {
    var p := c.partial[0];
    var i := FirstUnused(c.used[p], 0, c.count);
    var d := c.(used := c.used[p := c.used[p] + {i}]);
    if FreeCount(d, p) == 0
    then (d.(partial := Without<nat>(c.partial, p), full := [p] + c.full), p, i)
    else (d, p, i)
  }

  // The system once slab_cache_alloc has tried to have a partial slab.
  function Stocked(y: System): System
    requires |y.buddy.lists| == MAX_ORDER
  {
    if y.cache.partial == [] then Grow(y) else y
  }

  function AllocObject(y: System): (r: (System, Option<int>))
    requires |y.buddy.lists| == MAX_ORDER
    requires forall p :: p in y.cache.partial ==> p in y.cache.used
  {
    var z := Stocked(y);
    if z.cache.partial == [] then (z, None)
    else
      var (c, p, i) := Take(z.cache);
      (z.(cache := c), Some(ObjectAddress(z.cache, p, i)))
  }

  // The slab and index that slab_cache_free computes from an address.
  function SlabOf(addr: int): nat
    requires addr >= PAGE_OFFSET
  {
    Base((addr - PAGE_OFFSET) / PAGE_SIZE, SLAB_ORDER)
  }

  function IndexOf(c: Cache, p: nat, addr: int): int
    requires c.size >= 1
  {
    (addr - (SlabAddress(p) + ObjectOffset(c.size, c.count))) / c.size
  }

  function Release(c: Cache, p: nat, i: nat): Cache
    requires p in c.used
  {
    var d := c.(used := c.used[p := c.used[p] - {i}]);
    if FreeCount(c, p) == 0 then d.(full := Without<nat>(c.full, p), partial := c.partial + [p]) else d
  }

  // Both assertions of slab_cache_fini.
  predicate DestroyAsserts(c: Cache)
    requires forall p :: p in c.partial ==> p in c.used
  {
    c.full == [] && forall p :: p in c.partial ==> FreeCount(c, p) == c.count
  }

  /* Objects in memory */

  // An address inside an object leads back to the slab, its start to the index.
  lemma Locate(c: Cache, p: nat, i: nat)
    requires c.size >= 1 && Fits(SLAB_SPACE, c.size, c.count) && i < c.count && Aligned(p, SLAB_ORDER)
    ensures ObjectAddress(c, p, i) >= PAGE_OFFSET && SlabOf(ObjectAddress(c, p, i)) == p
    ensures IndexOf(c, p, ObjectAddress(c, p, i)) == i
  {
    var addr := ObjectAddress(c, p, i);
    ObjectsApart(SlabAddress(p), c.size, c.count, i, i);
    IndexOfObject(SlabAddress(p), c.size, c.count, i);
    var page := (addr - PAGE_OFFSET) / PAGE_SIZE;
    assert p <= page < p + 2;
    BaseUnique(p, page, SLAB_ORDER);
  }

  // A live object lies behind its slab's header, inside a live two-page block.
  lemma ObjectInside(y: System, p: nat, i: nat)
    requires SystemInv(y) && IsLive(y.cache, p, i)
    ensures i < y.cache.count && Aligned(p, SLAB_ORDER)
    ensures SlabAddress(p) + SLAB_HEADER + BitmapBytes(y.cache.count) <= ObjectAddress(y.cache, p, i)
    ensures ObjectAddress(y.cache, p, i) + y.cache.size <= SlabAddress(p + 2)
    ensures y.buddy.lo <= p && p + 2 <= y.buddy.hi && LiveAt(y.buddy.live, p, 1) && LiveAt(y.buddy.live, p + 1, 1)
  {
    ObjectsApart(SlabAddress(p), y.cache.size, y.cache.count, i, i);
    LiveBlock(y.buddy, p);
    assert Pow2(1) == 2;
    assert p in Block(p, 1) && p + 1 in Block(p, 1);
    assert LiveAt(y.buddy.live, p, 1) && LiveAt(y.buddy.live, p + 1, 1);
  }

  lemma SlabsApart(p: nat, q: nat)
    requires Aligned(p, SLAB_ORDER) && Aligned(q, SLAB_ORDER)
    ensures p < q ==> SlabAddress(p + 2) <= SlabAddress(q)
  {
    assert p == 2 * (p / 2) && q == 2 * (q / 2);
  }

  // Two live objects never overlap, in one slab or in two.
  lemma LiveObjectsApart(y: System, p: nat, i: nat, q: nat, j: nat)
    requires SystemInv(y) && IsLive(y.cache, p, i) && IsLive(y.cache, q, j)
    requires p != q || i != j
    ensures ObjectAddress(y.cache, p, i) + y.cache.size <= ObjectAddress(y.cache, q, j)
            || ObjectAddress(y.cache, q, j) + y.cache.size <= ObjectAddress(y.cache, p, i)
  {
    ObjectInside(y, p, i);
    ObjectInside(y, q, j);
    if p == q {
      ObjectsApart(SlabAddress(p), y.cache.size, y.cache.count, i, j);
      ObjectsApart(SlabAddress(p), y.cache.size, y.cache.count, j, i);
    } else {
      SlabsApart(p, q);
      SlabsApart(q, p);
    }
  }

  // Every live object is aligned as the cache was asked to align it.
  lemma LiveObjectAligned(y: System, p: nat, i: nat, align: nat)
    requires SystemInv(y) && IsLive(y.cache, p, i)
    requires align >= 1 && y.cache.size % align == 0 && SLAB_SPACE % align == 0
    ensures ObjectAddress(y.cache, p, i) >= 0 && ObjectAddress(y.cache, p, i) % align == 0
  {
    ObjectInside(y, p, i);
    assert p == 2 * (p / 2);
    var m := 0x6_0000 + p / 2;
    assert SlabAddress(p) == m * SLAB_SPACE;
    DivMul(SLAB_SPACE, align);
    TimesMultiple(m, SLAB_SPACE / align, align);
    MultipleMod(m * (SLAB_SPACE / align), align);
    ObjectsAligned(SlabAddress(p), y.cache.size, y.cache.count, align, i);
  }

  /* Preservation */

  // A subset of [0, n) with fewer than n elements leaves an index free.
  lemma RoomLeft(u: set<nat>, n: nat)
    requires forall i :: i in u ==> i < n
    ensures |u| <= n
    ensures FirstUnused(u, 0, n) < n <==> |u| < n
  {
    IntervalSize(0, n);
    var all := Interval(0, n);
    assert u <= all;
    CardinalityMono(u, all);
    if FirstUnused(u, 0, n) < n {
      CardinalityMono(u + {FirstUnused(u, 0, n)}, all);
    } else {
      assert u == all;
    }
  }

  lemma {:induction false} CardinalityMono(a: set<nat>, b: set<nat>)
    requires a <= b
    ensures |a| <= |b|
    ensures |a| == |b| ==> a == b
  {
    if a != {} {
      var x :| x in a;
      CardinalityMono(a - {x}, b - {x});
    }
  }

  lemma AddSlabPreserves(c: Cache, p: nat)
    requires CacheInv(c) && p !in c.used
    ensures CacheInv(AddSlab(c, p)) && AddSlab(c, p).used.Keys == c.used.Keys + {p}
    ensures forall q: nat, j: nat :: IsLive(AddSlab(c, p), q, j) <==> IsLive(c, q, j)
  {
    AppendElements(c.partial, p);
    var d := AddSlab(c, p);
    forall q: nat, j: nat ensures IsLive(d, q, j) <==> IsLive(c, q, j) {}
    assert forall q :: q in c.used ==> FreeCount(d, q) == FreeCount(c, q);
  }

  // The live blocks of everyone but the cache.
  ghost function ClientBlocks(y: System): map<nat, nat> {
    y.buddy.live - y.cache.used.Keys
  }

  lemma GrowPreserves(y: System)
    requires SystemInv(y) && y.cache.partial == []
    ensures SystemInv(Grow(y)) && ClientBlocks(Grow(y)) == ClientBlocks(y)
    ensures forall q: nat, j: nat :: IsLive(Grow(y).cache, q, j) <==> IsLive(y.cache, q, j)
    ensures Grow(y).cache.partial == [] <==> Alloc(y.buddy, SLAB_ORDER).1.None?
    ensures Grow(y).cache.size == y.cache.size && Grow(y).cache.count == y.cache.count
  {
    AllocPreserves(y.buddy, SLAB_ORDER);
    var (b, r) := Alloc(y.buddy, SLAB_ORDER);
    if r.Some? {
      assert r.value !in y.cache.used;
      AddSlabPreserves(y.cache, r.value);
      GrowLive(y.buddy.live, y.cache.used.Keys, r.value);
    }
  }

  lemma GrowLive(live: map<nat, nat>, slabs: set<nat>, p: nat)
    requires p !in live
    ensures live[p := SLAB_ORDER] - (slabs + {p}) == live - slabs
  {
  }

  // Marking one object changes one counter.
  lemma Occupied(c: Cache, p: nat, i: nat, d: Cache)
    requires InRange(c) && p in c.used && i < c.count && d.count == c.count
    requires d.used == c.used[p := c.used[p] + {i}] || d.used == c.used[p := c.used[p] - {i}]
    ensures d.used.Keys == c.used.Keys && InRange(d)
    ensures forall q :: q in c.used && q != p ==> FreeCount(d, q) == FreeCount(c, q)
    ensures FreeCount(c, p) >= 0 && FreeCount(d, p) >= 0
    ensures FreeCount(c, p) > 0 <==> FirstUnused(c.used[p], 0, c.count) < c.count
    ensures i !in c.used[p] && i in d.used[p] ==> FreeCount(d, p) == FreeCount(c, p) - 1
    ensures i in c.used[p] && i !in d.used[p] ==> FreeCount(d, p) == FreeCount(c, p) + 1
  {
    forall q: nat, j: nat | IsLive(d, q, j) ensures j < c.count {
      assert IsLive(c, q, j) || j == i;
    }
    forall j: nat ensures (j in c.used[p] ==> j < c.count) && (j in d.used[p] ==> j < c.count) {
      assert IsLive(c, p, j) <==> j in c.used[p];
      assert IsLive(d, p, j) <==> j in d.used[p];
    }
    RoomLeft(c.used[p], c.count);
    RoomLeft(d.used[p], c.count);
  }

  // Take makes exactly one new object live and keeps the bookkeeping.
  lemma TakePreserves(c: Cache)
    requires CacheInv(c) && c.partial != []
    ensures c.partial[0] in c.used
    ensures var (d, p, i) := Take(c);
            CacheInv(d) && d.used.Keys == c.used.Keys && p in c.used
            && !IsLive(c, p, i) && i < c.count && d.size == c.size && d.count == c.count
            && forall q: nat, j: nat :: IsLive(d, q, j) <==> IsLive(c, q, j) || (q == p && j == i)
  {
    assert c.partial[0] in c.partial;
    var (d, p, i) := Take(c);
    RoomInPartial(c, p);
    Occupied(c, p, i, d);
    WithoutElements(c.partial, p);
  }

  lemma RoomInPartial(c: Cache, p: nat)
    requires InRange(c) && p in c.used && FreeCount(c, p) > 0
    ensures FirstUnused(c.used[p], 0, c.count) < c.count
  {
    forall j: nat | j in c.used[p] ensures j < c.count { assert IsLive(c, p, j); }
    RoomLeft(c.used[p], c.count);
  }

  lemma ReleasePreserves(c: Cache, p: nat, i: nat)
    requires CacheInv(c) && IsLive(c, p, i)
    ensures CacheInv(Release(c, p, i)) && Release(c, p, i).used.Keys == c.used.Keys
    ensures forall q: nat, j: nat :: IsLive(Release(c, p, i), q, j) <==> IsLive(c, q, j) && !(q == p && j == i)
  {
    Occupied(c, p, i, Release(c, p, i));
    WithoutElements(c.full, p);
  }

  /* The operations of the cache */

  // z differs from y by the one live object (p, i), found at addr.
  ghost predicate NewObject(y: System, z: System, p: nat, i: nat, addr: int) {
    && !IsLive(y.cache, p, i) && addr == ObjectAddress(z.cache, p, i)
    && forall q: nat, j: nat :: IsLive(z.cache, q, j) <==> IsLive(y.cache, q, j) || (q == p && j == i)
  }

  ghost predicate SameObjects(y: System, z: System) {
    forall q: nat, j: nat :: IsLive(z.cache, q, j) <==> IsLive(y.cache, q, j)
  }

  lemma AllocObjectPreserves(y: System)
    requires SystemInv(y)
    ensures forall p :: p in y.cache.partial ==> p in y.cache.used
    ensures var z := AllocObject(y).0;
            SystemInv(z) && ClientBlocks(z) == ClientBlocks(y)
            && z.cache.size == y.cache.size && z.cache.count == y.cache.count
    ensures AllocObject(y).1.None? <==> y.cache.partial == [] && Alloc(y.buddy, SLAB_ORDER).1.None?
    ensures match AllocObject(y).1
      case None => SameObjects(y, AllocObject(y).0)
      case Some(addr) => exists p: nat, i: nat :: NewObject(y, AllocObject(y).0, p, i, addr)
  {
    if y.cache.partial == [] { GrowPreserves(y); }
    var z := Stocked(y);
    if z.cache.partial != [] {
      TakePreserves(z.cache);
      var (c, p, i) := Take(z.cache);
      assert NewObject(y, AllocObject(y).0, p, i, ObjectAddress(z.cache, p, i));
    }
  }

  // The cache is out of memory exactly when no slab has room and the zone holds no
  // aligned pair of free pages.
  lemma AllocObjectComplete(y: System)
    requires SystemInv(y)
    ensures forall p :: p in y.cache.partial ==> p in y.cache.used
    ensures AllocObject(y).1.None? <==>
              (forall p :: p in y.cache.used ==> FreeCount(y.cache, p) == 0)
              && !exists p: nat :: Aligned(p, SLAB_ORDER) && BlockIn(y.buddy.free, p, SLAB_ORDER)
  {
    AllocObjectPreserves(y);
    AllocComplete(y.buddy, SLAB_ORDER);
    if y.cache.partial != [] {
      assert y.cache.partial[0] in y.cache.partial;
    }
  }

  lemma AllPlacesTaken(c: Cache, p: nat, i: nat)
    requires InRange(c) && p in c.used && FreeCount(c, p) == 0
    ensures IsLive(c, p, i) <==> i < c.count
  {
    forall j: nat | j in c.used[p] ensures j < c.count { assert IsLive(c, p, j); }
    RoomLeft(c.used[p], c.count);
  }

  // All the places of all slabs are taken, and no others.
  ghost predicate Exhausted(c: Cache) {
    forall p, i: nat :: p in c.used ==> (IsLive(c, p, i) <==> i < c.count)
  }

  lemma NonePartial(c: Cache)
    requires CacheInv(c) && c.partial == []
    ensures Exhausted(c)
  {
    forall p, i: nat | p in c.used ensures IsLive(c, p, i) <==> i < c.count {
      AllPlacesTaken(c, p, i);
    }
  }

  // An allocation adds a slab only when all slabs are full, and only one; a refused one
  // changes nothing.
  lemma GrowsOnlyWhenFull(y: System)
    requires SystemInv(y)
    ensures forall p :: p in y.cache.partial ==> p in y.cache.used
    ensures AllocObject(y).1.None? || AllocObject(y).0.cache.used.Keys != y.cache.used.Keys ==> Exhausted(y.cache)
    ensures AllocObject(y).1.None? ==> AllocObject(y).0 == y
    ensures AllocObject(y).0.cache.used.Keys != y.cache.used.Keys ==>
              exists p :: p !in y.cache.used && AllocObject(y).0.cache.used.Keys == y.cache.used.Keys + {p}
  {
    if y.cache.partial == [] {
      assert Exhausted(y.cache) by { NonePartial(y.cache); }
      var (b, r) := Alloc(y.buddy, SLAB_ORDER);
      assert r.None? ==> b == y.buddy by { AllocPreserves(y.buddy, SLAB_ORDER); }
      assert r.Some? ==> r.value !in y.cache.used by { AllocPreserves(y.buddy, SLAB_ORDER); }
    } else {
      assert y.cache.partial[0] in y.cache.partial;
      assert Take(y.cache).0.used.Keys == y.cache.used.Keys;
    }
  }

  // The new object takes the lowest free place of its slab.
  lemma LowestPlace(y: System)
    requires SystemInv(y)
    ensures forall p :: p in y.cache.partial ==> p in y.cache.used
    ensures AllocObject(y).1.Some? ==>
              exists p: nat, i: nat :: NewObject(y, AllocObject(y).0, p, i, AllocObject(y).1.value)
                                       && forall j: nat :: j < i ==> IsLive(y.cache, p, j)
  {
    if y.cache.partial == [] { GrowPreserves(y); }
    var z := Stocked(y);
    if z.cache.partial != [] {
      TakePreserves(z.cache);
      var (c, p, i) := Take(z.cache);
      assert NewObject(y, AllocObject(y).0, p, i, ObjectAddress(z.cache, p, i));
      forall j: nat | j < i ensures IsLive(y.cache, p, j) { assert IsLive(z.cache, p, j); }
    }
  }

  // addr is the address of a live object, as slab_cache_free takes it apart.
  predicate LiveAddress(c: Cache, addr: int) {
    addr >= PAGE_OFFSET && c.size >= 1
    && var p := SlabOf(addr);
       var i := IndexOf(c, p, addr);
       i >= 0 && IsLive(c, p, i) && ObjectAddress(c, p, i) == addr
  }

  lemma LiveAddressIff(y: System, addr: int)
    requires SystemInv(y)
    ensures LiveAddress(y.cache, addr) <==>
              exists p: nat, i: nat :: IsLive(y.cache, p, i) && ObjectAddress(y.cache, p, i) == addr
  {
    forall p: nat, i: nat | IsLive(y.cache, p, i)
      ensures LiveAddress(y.cache, ObjectAddress(y.cache, p, i))
    {
      ObjectInside(y, p, i);
      Locate(y.cache, p, i);
    }
  }

  function FreeObject(y: System, addr: int): System
    requires LiveAddress(y.cache, addr)
  {
    var p := SlabOf(addr);
    y.(cache := Release(y.cache, p, IndexOf(y.cache, p, addr)))
  }

  // Freeing clears exactly the object that its allocation made live.
  lemma FreeObjectPreserves(y: System, p: nat, i: nat)
    requires SystemInv(y) && IsLive(y.cache, p, i)
    ensures LiveAddress(y.cache, ObjectAddress(y.cache, p, i))
    ensures var z := FreeObject(y, ObjectAddress(y.cache, p, i));
            SystemInv(z) && ClientBlocks(z) == ClientBlocks(y) && z.buddy == y.buddy
            && z.cache.size == y.cache.size && z.cache.count == y.cache.count
            && forall q: nat, j: nat :: IsLive(z.cache, q, j) <==> IsLive(y.cache, q, j) && !(q == p && j == i)
  {
    ObjectInside(y, p, i);
    Locate(y.cache, p, i);
    ReleasePreserves(y.cache, p, i);
  }

  // Freeing the address just allocated brings back the same live objects.
  lemma AllocThenFreeObject(y: System)
    requires SystemInv(y)
    ensures forall p :: p in y.cache.partial ==> p in y.cache.used
    ensures var (z, r) := AllocObject(y);
            r.Some? ==> LiveAddress(z.cache, r.value) && SystemInv(FreeObject(z, r.value))
                        && SameObjects(y, FreeObject(z, r.value))
                        && ClientBlocks(FreeObject(z, r.value)) == ClientBlocks(y)
  {
    AllocObjectPreserves(y);
    var (z, r) := AllocObject(y);
    if r.Some? {
      var p: nat, i: nat :| NewObject(y, z, p, i, r.value);
      FreeObjectPreserves(z, p, i);
    }
  }

  // The assertions of slab_cache_fini pass exactly when no object is live.
  lemma DestroyAssertsIff(c: Cache)
    requires CacheInv(c)
    ensures forall p :: p in c.partial ==> p in c.used
    ensures DestroyAsserts(c) <==> forall p: nat, i: nat :: !IsLive(c, p, i)
  {
    forall p | p in c.used
      ensures FreeCount(c, p) == c.count <==> c.used[p] == {}
      ensures c.used[p] != {} ==> exists i :: IsLive(c, p, i)
    {
      if c.used[p] != {} {
        var i :| i in c.used[p];
        assert IsLive(c, p, i);
      }
    }
    if c.full != [] {
      assert c.full[0] in c.full;
      assert c.used[c.full[0]] != {};
    }
    if forall p: nat, i: nat :: !IsLive(c, p, i) {
      forall p | p in c.partial ensures FreeCount(c, p) == c.count { assert p in c.used; }
    }
    if DestroyAsserts(c) {
      forall p: nat, i: nat ensures !IsLive(c, p, i) {
        if p in c.used { assert p in c.partial; }
      }
    }
  }

  // slab_cache_fini frees the slabs of the partial list from head to tail.
  function Destroy(y: System): State
    requires |y.buddy.lists| == MAX_ORDER && LegalRun(y.buddy, Frees(y.cache.partial))
  {
    Run(y.buddy, Frees(y.cache.partial))
  }

  lemma DestroyReturnsPages(y: System)
    requires SystemInv(y) && forall p: nat, i: nat :: !IsLive(y.cache, p, i)
    ensures LegalRun(y.buddy, Frees(y.cache.partial))
    ensures Inv(Destroy(y)) && Destroy(y).live == ClientBlocks(y)
    ensures Destroy(y).lo == y.buddy.lo && Destroy(y).hi == y.buddy.hi
  {
    DestroyAssertsIff(y.cache);
    assert forall p :: p in y.cache.partial ==> p in y.cache.used;
    FreesLegal(y.buddy, y.cache.partial);
    RunPreserves(y.buddy, Frees(y.cache.partial));
    assert Elements(y.cache.partial) == y.cache.used.Keys;
  }

  // The slabs of ps are live blocks of two pages.
  ghost predicate Owned(b: State, c: Cache, ps: seq<nat>) {
    |b.lists| == MAX_ORDER && Distinct(ps)
    && forall p :: p in ps ==> p in c.used && p in b.live && b.live[p] == SLAB_ORDER
  }

  // The loop of slab_cache_fini stops at the first slab that is not empty.
  function Fini(b: State, c: Cache, ps: seq<nat>): (State, bool)
    requires Owned(b, c, ps)
    decreases |ps|
  {
    if ps == [] then (b, true)
    else if FreeCount(c, ps[0]) != c.count then (b, false)
    else Fini(Free(b, ps[0]), c, ps[1..])
  }

  lemma FiniRound(b: State, c: Cache, ps: seq<nat>)
    requires Owned(b, c, ps) && Inv(b) && ps != []
    ensures Inv(Free(b, ps[0])) && Owned(Free(b, ps[0]), c, ps[1..]) && Free(b, ps[0]).live == b.live - {ps[0]}
  {
    assert Inv(Free(b, ps[0])) by { FreePreserves(b, ps[0]); }
    assert forall p :: p in ps[1..] ==> p in ps && p != ps[0];
  }

  // Both assertions pass exactly when all slabs are empty; then all are freed.
  lemma {:induction false} FiniMeaning(b: State, c: Cache, ps: seq<nat>)
    requires Owned(b, c, ps) && Inv(b)
    ensures Fini(b, c, ps).1 <==> forall p :: p in ps ==> FreeCount(c, p) == c.count
    ensures Fini(b, c, ps).1 ==> LegalRun(b, Frees(ps)) && Fini(b, c, ps).0 == Run(b, Frees(ps))
    decreases |ps|
  {
    if ps != [] && FreeCount(c, ps[0]) == c.count {
      FiniRound(b, c, ps);
      FiniMeaning(Free(b, ps[0]), c, ps[1..]);
      assert ps == [ps[0]] + ps[1..];
      assert Frees(ps)[0] == FreeOp(ps[0]) && Frees(ps)[1..] == Frees(ps[1..]);
    }
  }

  // No slab with a live object is ever freed, and no block of another client.
  lemma {:induction false} FiniKeeps(b: State, c: Cache, ps: seq<nat>)
    requires Owned(b, c, ps) && Inv(b)
    ensures Inv(Fini(b, c, ps).0)
    ensures forall p :: p in b.live && (p in ps ==> FreeCount(c, p) != c.count) ==>
              p in Fini(b, c, ps).0.live && Fini(b, c, ps).0.live[p] == b.live[p]
    decreases |ps|
  {
    if ps != [] && FreeCount(c, ps[0]) == c.count {
      FiniRound(b, c, ps);
      FiniKeeps(Free(b, ps[0]), c, ps[1..]);
    }
  }

  // The walk frees exactly the slabs in front of the first that is not empty.
  lemma {:induction false} FiniStopsAt(b: State, c: Cache, ps: seq<nat>, n: nat)
    requires Owned(b, c, ps) && Inv(b) && n <= |ps|
    requires forall i :: 0 <= i < n ==> FreeCount(c, ps[i]) == c.count
    requires n < |ps| ==> FreeCount(c, ps[n]) != c.count
    ensures LegalRun(b, Frees(ps[..n])) && Fini(b, c, ps) == (Run(b, Frees(ps[..n])), n == |ps|)
    decreases |ps|
  {
    if n > 0 {
      FiniRound(b, c, ps);
      FiniStopsAt(Free(b, ps[0]), c, ps[1..], n - 1);
      assert ps[..n][0] == ps[0] && ps[..n][1..] == ps[1..][..n - 1];
      assert Frees(ps[..n])[0] == FreeOp(ps[0]) && Frees(ps[..n])[1..] == Frees(ps[..n][1..]);
    }
  }

  // slab_cache_fini with its two assertions: the zone it leaves, and whether they passed.
  function Destruction(y: System): (State, bool)
    requires Owned(y.buddy, y.cache, y.cache.partial)
  {
    if y.cache.full != [] then (y.buddy, false) else Fini(y.buddy, y.cache, y.cache.partial)
  }

  lemma SlabsOwned(y: System)
    requires SystemInv(y)
    ensures Defined(y) && Owned(y.buddy, y.cache, y.cache.partial)
  {
    assert forall p :: p in y.cache.partial ==> p in y.cache.used;
  }

  // Destruction passes its assertions exactly when no object is live, and then gives
  // back every slab. If a slab is full it frees nothing. In any case it leaves a valid zone, in which the slabs with live
  // objects and the blocks of the other clients are still live.
  lemma DestructionMeaning(y: System)
    requires SystemInv(y)
    ensures Owned(y.buddy, y.cache, y.cache.partial)
    ensures Destruction(y).1 <==> forall p: nat, i: nat :: !IsLive(y.cache, p, i)
    ensures Destruction(y).1 ==> LegalRun(y.buddy, Frees(y.cache.partial)) && Destruction(y).0 == Destroy(y)
    ensures (exists p :: p in y.cache.used && FreeCount(y.cache, p) == 0) ==> Destruction(y).0 == y.buddy
    ensures Inv(Destruction(y).0)
    ensures forall p :: p in y.buddy.live && (p in y.cache.used ==> y.cache.used[p] != {}) ==>
              p in Destruction(y).0.live && Destruction(y).0.live[p] == y.buddy.live[p]
  {
    SlabsOwned(y);
    DestroyAssertsIff(y.cache);
    FiniMeaning(y.buddy, y.cache, y.cache.partial);
    FiniKeeps(y.buddy, y.cache, y.cache.partial);
    forall p | p in y.cache.used && y.cache.used[p] != {} ensures FreeCount(y.cache, p) != y.cache.count {
      assert |y.cache.used[p]| > 0;
    }
  }

  /* Runs: objects come and go while other clients use the page allocator. */

  datatype SlabOp = ObjectAlloc | ObjectFree(addr: int) | PageAlloc(order: nat) | PageFree(page: nat)

  ghost predicate Permitted(y: System, op: SlabOp) {
    match op
    case ObjectAlloc => true
    case ObjectFree(addr) => LiveAddress(y.cache, addr)
    case PageAlloc(k) => k < MAX_ORDER
    case PageFree(p) => p in y.buddy.live && y.buddy.live[p] < MAX_ORDER && p !in y.cache.used
  }

  ghost function Act(y: System, op: SlabOp): (z: System)
    requires Defined(y) && Permitted(y, op)
    ensures Defined(z)
  {
    match op
    case ObjectAlloc => AllocObject(y).0
    case ObjectFree(addr) => FreeObject(y, addr)
    case PageAlloc(k) => y.(buddy := Alloc(y.buddy, k).0)
    case PageFree(p) => y.(buddy := Free(y.buddy, p))
  }

  ghost predicate PermittedRun(y: System, ops: seq<SlabOp>)
    requires Defined(y)
    decreases |ops|
  {
    ops == [] || (Permitted(y, ops[0]) && PermittedRun(Act(y, ops[0]), ops[1..]))
  }

  ghost function ActAll(y: System, ops: seq<SlabOp>): (z: System)
    requires Defined(y) && PermittedRun(y, ops)
    ensures Defined(z)
    decreases |ops|
  {
    if ops == [] then y else ActAll(Act(y, ops[0]), ops[1..])
  }

  /* The partial list is a queue too: slabs join at the tail, objects come from the first. */

  lemma TakeQueues(c: Cache)
    requires c.partial != [] && c.partial[0] in c.used
    ensures QueueStep(c.partial, Take(c).0.partial)
  {
  }

  lemma ActQueues(y: System, op: SlabOp)
    requires SystemInv(y) && Permitted(y, op)
    ensures QueueStep(y.cache.partial, Act(y, op).cache.partial)
  {
    match op {
      case ObjectAlloc =>
        AllocObjectPreserves(y);
        if y.cache.partial != [] {
          TakeQueues(y.cache);
        } else {
          GrownQueues(y);
        }
      case ObjectFree(addr) =>
        var p := SlabOf(addr);
        assert FreeCount(y.cache, p) == 0 ==> p !in y.cache.partial;
      case _ =>
    }
  }

  lemma GrownQueues(y: System)
    requires SystemInv(y) && y.cache.partial == [] && Defined(y)
    ensures QueueStep(y.cache.partial, AllocObject(y).0.cache.partial)
  {
    GrowPreserves(y);
    var z := Stocked(y).cache;
    if z.partial != [] {
      var p := z.partial[0];
      assert z.partial == [p] && Without<nat>([p], p) == [];
      assert [] + [p] == [p];
      assert AllocObject(y).0.cache.partial in {[], [p]};
    }
  }

  // The full list keeps the slab that filled up last in front.
  lemma FullStacks(y: System, op: SlabOp)
    requires SystemInv(y) && Permitted(y, op)
    ensures var before, after := y.cache.full, Act(y, op).cache.full;
            after == before || (after != [] && after[0] !in before && after[1..] == before)
            || (op.ObjectFree? && after == Without(before, SlabOf(op.addr)))
  {
    if op.ObjectAlloc? {
      if y.cache.partial == [] { GrowPreserves(y); }
      var z := Stocked(y).cache;
      assert z.full == y.cache.full;
      if z.partial != [] { assert z.partial[0] in z.partial && z.partial[0] !in z.full; }
    }
  }

  ghost predicate StaysPartial(y: System, ops: seq<SlabOp>, p: nat)
    requires Defined(y) && PermittedRun(y, ops)
    decreases |ops|
  {
    p in y.cache.partial && (ops == [] || StaysPartial(Act(y, ops[0]), ops[1..], p))
  }

  lemma {:induction false} OlderSlabAhead(y: System, ops: seq<SlabOp>, p: nat, q: nat)
    requires SystemInv(y) && Defined(y) && PermittedRun(y, ops) && StaysPartial(y, ops, p)
    requires p != q && Behind(y.cache.partial, p, q)
    ensures p in ActAll(y, ops).cache.partial && Behind(ActAll(y, ops).cache.partial, p, q)
    decreases |ops|
  {
    if ops != [] {
      var z := Act(y, ops[0]);
      ActPreserves(y, ops[0]);
      ActQueues(y, ops[0]);
      assert p in z.cache.partial;
      StaysAhead(y.cache.partial, z.cache.partial, p, q);
      OlderSlabAhead(z, ops[1..], p, q);
    }
  }

  // While slab p stays partial, no object comes from a slab that was behind it on the
  // partial list, or joins the list later.
  lemma OlderSlabFirst(y: System, ops: seq<SlabOp>, p: nat, q: nat)
    requires SystemInv(y) && Defined(y) && PermittedRun(y, ops) && StaysPartial(y, ops, p)
    requires p != q && (q !in y.cache.partial || Behind(y.cache.partial, p, q))
    ensures var z := ActAll(y, ops);
            forall i: nat :: IsLive(AllocObject(z).0.cache, q, i) <==> IsLive(z.cache, q, i)
  {
    RunKeepsInvariant(y, ops);
    OlderSlabAhead(y, ops, p, q);
    var z := ActAll(y, ops);
    TakePreserves(z.cache);
    var first := z.cache.partial[0];
    var a :| 0 <= a < |z.cache.partial| && z.cache.partial[a] == p;
    assert first != q;
  }

  ghost predicate UsesObjectsOnly(ops: seq<SlabOp>) {
    forall op :: op in ops ==> op.ObjectAlloc? || op.ObjectFree?
  }

  lemma ActPreserves(y: System, op: SlabOp)
    requires SystemInv(y) && Permitted(y, op)
    ensures SystemInv(Act(y, op)) && Act(y, op).buddy.lo == y.buddy.lo && Act(y, op).buddy.hi == y.buddy.hi
    ensures Act(y, op).cache.size == y.cache.size && Act(y, op).cache.count == y.cache.count
    ensures op.PageAlloc? || op.PageFree? || ClientBlocks(Act(y, op)) == ClientBlocks(y)
  {
    match op {
      case ObjectAlloc => AllocObjectPreserves(y); AllocPreserves(y.buddy, SLAB_ORDER);
      case ObjectFree(addr) => FreeObjectPreserves(y, SlabOf(addr), IndexOf(y.cache, SlabOf(addr), addr));
      case PageAlloc(k) => AllocPreserves(y.buddy, k);
      case PageFree(p) => FreePreserves(y.buddy, p);
    }
  }

  lemma {:induction false} RunKeepsInvariant(y: System, ops: seq<SlabOp>)
    requires SystemInv(y) && Defined(y) && PermittedRun(y, ops)
    ensures SystemInv(ActAll(y, ops))
    ensures ActAll(y, ops).buddy.lo == y.buddy.lo && ActAll(y, ops).buddy.hi == y.buddy.hi
    ensures ActAll(y, ops).cache.size == y.cache.size && ActAll(y, ops).cache.count == y.cache.count
    ensures UsesObjectsOnly(ops) ==> ClientBlocks(ActAll(y, ops)) == ClientBlocks(y)
    decreases |ops|
  {
    if ops != [] {
      ActPreserves(y, ops[0]);
      RunKeepsInvariant(Act(y, ops[0]), ops[1..]);
      assert UsesObjectsOnly(ops) ==> UsesObjectsOnly(ops[1..]) && ops[0] in ops;
    }
  }

  // Creation gives a cache that works exactly when the request is usable.
  lemma CreateOk(buddy: State, size: nat, align: nat)
    requires Inv(buddy) && 1 <= align < WORD_RANGE && size < WORD_RANGE
    ensures Defined(Create(buddy, size, align)) && ClientBlocks(Create(buddy, size, align)) == buddy.live
    ensures SystemInv(Create(buddy, size, align)) && Create(buddy, size, align).cache.size >= size <==> Usable(size, align)
    ensures SystemInv(Create(buddy, size, align)) ==> Create(buddy, size, align).cache.size >= size
  {
    SizeIsLeastMultiple(size, align);
    UsableIff(size, align);
  }

  // The objects of a created cache have the least size that will do, and a slab holds as
  // many as header, bitmap and unused bits leave room for: the greatest number that fits,
  // or one less, the latter exactly if the layout wastes that much.
  lemma CreatedLayout(buddy: State, size: nat, align: nat, n: nat, m: nat)
    requires 1 <= align < WORD_RANGE && size < WORD_RANGE && Usable(size, align)
    ensures var c := Create(buddy, size, align).cache;
            c.size >= size && c.size % align == 0 && (m >= 1 && m >= size && m % align == 0 ==> c.size <= m)
    ensures var c := Create(buddy, size, align).cache;
            n <= c.count <==> 8 * SLAB_HEADER + (n + WORD_BITS - 1) + 8 * (n * c.size) <= 8 * SLAB_SPACE
    ensures var c := Create(buddy, size, align).cache;
            c.size < 0x2000_0000 && (!Wastes(c.size, SLAB_SPACE) && Fits(SLAB_SPACE, c.size, n) ==> n <= c.count)
            && (c.size >= WORD_BYTES ==>
                  (Fits(SLAB_SPACE, c.size, n) <==> n <= c.count + if Wastes(c.size, SLAB_SPACE) then 1 else 0))
  {
    var c := Create(buddy, size, align).cache;
    UsableSize(size, align);
    SizeIsLeastMultiple(size, align);
    if m >= 1 && m >= size && m % align == 0 { NoSmallerMultiple(size, align, m); }
    CountMeaning(n, c.size, SLAB_SPACE);
    CountIsBestIff(c.size, SLAB_SPACE);
    if c.size >= WORD_BYTES { FitsIff(c.size, SLAB_SPACE, n); }
  }

  // For example a cache of 16-byte objects: 506 in each slab.
  lemma SixteenByteObjects(buddy: State)
    ensures Create(buddy, 16, 16).cache.size == 16 && Create(buddy, 16, 16).cache.count == 506
  {
    LayoutMissesOne();
  }

  // After any run a slab is added, or memory refused, only when all the places of all
  // slabs are taken, and their number is still that of the layout.
  lemma RunCapacity(buddy: State, size: nat, align: nat, ops: seq<SlabOp>, n: nat)
    requires Inv(buddy) && 1 <= align < WORD_RANGE && size < WORD_RANGE && Usable(size, align)
    requires Defined(Create(buddy, size, align)) && PermittedRun(Create(buddy, size, align), ops)
    ensures var y := ActAll(Create(buddy, size, align), ops);
            n <= y.cache.count <==> 8 * SLAB_HEADER + (n + WORD_BITS - 1) + 8 * (n * y.cache.size) <= 8 * SLAB_SPACE
    ensures var y := ActAll(Create(buddy, size, align), ops);
            AllocObject(y).1.None? || AllocObject(y).0.cache.used.Keys != y.cache.used.Keys ==> Exhausted(y.cache)
  {
    var y0 := Create(buddy, size, align);
    CreateOk(buddy, size, align);
    RunKeepsInvariant(y0, ops);
    CreatedLayout(buddy, size, align, n, 0);
    GrowsOnlyWhenFull(ActAll(y0, ops));
  }

  // After any run every two live objects are apart, and when the alignment divides
  // the slab size every live object is aligned to it.
  lemma RunObjects(buddy: State, size: nat, align: nat, ops: seq<SlabOp>, p: nat, i: nat)
    requires Inv(buddy) && 1 <= align < WORD_RANGE && size < WORD_RANGE && Usable(size, align)
    requires Defined(Create(buddy, size, align)) && PermittedRun(Create(buddy, size, align), ops)
    requires IsLive(ActAll(Create(buddy, size, align), ops).cache, p, i)
    ensures var c := ActAll(Create(buddy, size, align), ops).cache;
            SLAB_SPACE % align == 0 ==> ObjectAddress(c, p, i) >= 0 && ObjectAddress(c, p, i) % align == 0
    ensures var c := ActAll(Create(buddy, size, align), ops).cache;
            c.size >= size && forall q: nat, j: nat :: IsLive(c, q, j) && (q != p || j != i) ==>
              ObjectAddress(c, p, i) + c.size <= ObjectAddress(c, q, j)
              || ObjectAddress(c, q, j) + c.size <= ObjectAddress(c, p, i)
  {
    var y0 := Create(buddy, size, align);
    CreateOk(buddy, size, align);
    RunKeepsInvariant(y0, ops);
    SizeIsLeastMultiple(size, align);
    var y := ActAll(y0, ops);
    if SLAB_SPACE % align == 0 { LiveObjectAligned(y, p, i, align); }
    forall q: nat, j: nat | IsLive(y.cache, q, j) && (q != p || j != i)
      ensures ObjectAddress(y.cache, p, i) + y.cache.size <= ObjectAddress(y.cache, q, j)
              || ObjectAddress(y.cache, q, j) + y.cache.size <= ObjectAddress(y.cache, p, i)
    {
      LiveObjectsApart(y, p, i, q, j);
    }
  }

  // The life of a cache. Whatever objects were allocated and freed, and whatever
  // other clients did meanwhile, destroying the cache passes its assertions exactly
  // when no object is live; then it holds no page any more, and if the other
  // clients hold what they held at the start, every free list of the page allocator
  // holds the same blocks as before the cache was created.
  lemma Lifecycle(buddy: State, size: nat, align: nat, ops: seq<SlabOp>)
    requires Inv(buddy) && 1 <= align < WORD_RANGE && size < WORD_RANGE && Usable(size, align)
    requires Defined(Create(buddy, size, align)) && PermittedRun(Create(buddy, size, align), ops)
    ensures var y := ActAll(Create(buddy, size, align), ops);
            SystemInv(y)
            && (DestroyAsserts(y.cache) <==> forall p: nat, i: nat :: !IsLive(y.cache, p, i))
            && (DestroyAsserts(y.cache) ==>
                  LegalRun(y.buddy, Frees(y.cache.partial))
                  && Inv(Destroy(y)) && Destroy(y).live == ClientBlocks(y)
                  && (ClientBlocks(y) == buddy.live || UsesObjectsOnly(ops) ==> SameBlocks(Destroy(y), buddy)))
  {
    var y0 := Create(buddy, size, align);
    CreateOk(buddy, size, align);
    RunKeepsInvariant(y0, ops);
    var y := ActAll(y0, ops);
    DestroyAssertsIff(y.cache);
    if DestroyAsserts(y.cache) {
      DestroyReturnsPages(y);
      if ClientBlocks(y) == buddy.live || UsesObjectsOnly(ops) {
        LiveBlocksDecide(Destroy(y), buddy);
      }
    }
  }
}
