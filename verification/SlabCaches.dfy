/**
 kernel/slab_cache.c as it runs: a bitmap of words, a counter and a link per slab,
 a back pointer per page, and the page allocator underneath. Each method acts as
 the function of module Slab on the ghost state.

 The fields of the slab whose first page is p, and the back pointer of page p, are
 the elements p of the field sequences; its link is node p of the pool `links`.
 */
module SlabCaches {
  import opened Bits
  import opened Words
  import opened Seqs
  import opened Lists
  import opened Buddy
  import opened PageAlloc
  import opened SlabLayout
  import opened Slab

  const WORD_MAX: nat := WORD_RANGE - 1

  lemma WordRange()
    ensures Pow2(32) == WORD_MAX + 1
  {
    assert Pow2(8) == 256;
    assert Pow2(12) == 16 * Pow2(8);
    assert Pow2(16) == 16 * Pow2(12);
    assert Pow2(20) == 16 * Pow2(16);
    assert Pow2(24) == 16 * Pow2(20);
    assert Pow2(28) == 16 * Pow2(24);
    assert Pow2(32) == 16 * Pow2(28);
  }

  /* Bitmaps */

  predicate BitAt(words: seq<nat>, k: nat) {
    k / WORD_BITS < |words| && Bit(words[k / WORD_BITS], k % WORD_BITS)
  }

  // The set bits are exactly the indices in u; there is room for `count` objects.
  ghost predicate BitmapAgrees(words: seq<nat>, u: set<nat>, count: nat) {
    && count <= WORD_BITS * |words|
    && (forall i :: 0 <= i < |words| ==> words[i] <= WORD_MAX)
    && (forall k: nat :: BitAt(words, k) <==> k in u)
  }

  // bitmap[word] |= 1 << shift
  function WithBit(words: seq<nat>, k: nat): seq<nat>
    requires k / WORD_BITS < |words|
  {
    words[k / WORD_BITS := Or(words[k / WORD_BITS], Pow2(k % WORD_BITS))]
  }

  // bitmap[word] &= ~(1 << shift)
  function WithoutBit(words: seq<nat>, k: nat): seq<nat>
    requires k / WORD_BITS < |words|
  {
    words[k / WORD_BITS := AndNot(words[k / WORD_BITS], Pow2(k % WORD_BITS))]
  }

  lemma SetBit(words: seq<nat>, u: set<nat>, count: nat, k: nat)
    requires BitmapAgrees(words, u, count) && k < count
    ensures k / WORD_BITS < |words|
    ensures BitmapAgrees(WithBit(words, k), u + {k}, count)
  {
    var i, j := k / WORD_BITS, k % WORD_BITS;
    var words' := WithBit(words, k);
    WordRange();
    Pow2Strict(j, 32);
    WordBounds(words[i], Pow2(j), 32);
    forall m: nat ensures BitAt(words', m) <==> m in u + {k} {
      if m / WORD_BITS == i {
        OrBit(words[i], Pow2(j), m % WORD_BITS);
        Pow2Bit(j, m % WORD_BITS);
        assert m == i * WORD_BITS + m % WORD_BITS;
      }
      assert BitAt(words, m) <==> m in u;
    }
  }

  lemma ClearBit(words: seq<nat>, u: set<nat>, count: nat, k: nat)
    requires BitmapAgrees(words, u, count) && k < count
    ensures k / WORD_BITS < |words|
    ensures BitmapAgrees(WithoutBit(words, k), u - {k}, count)
  {
    var i, j := k / WORD_BITS, k % WORD_BITS;
    var words' := WithoutBit(words, k);
    WordRange();
    Pow2Strict(j, 32);
    WordBounds(words[i], Pow2(j), 32);
    forall m: nat ensures BitAt(words', m) <==> m in u - {k} {
      if m / WORD_BITS == i {
        AndNotBit(words[i], Pow2(j), m % WORD_BITS);
        Pow2Bit(j, m % WORD_BITS);
        assert m == i * WORD_BITS + m % WORD_BITS;
      }
      assert BitAt(words, m) <==> m in u;
    }
  }

  // x >> j
  function Shift(x: nat, j: nat): nat {
    if j == 0 then x else Shift(x, j - 1) / 2
  }

  lemma {:induction false} ShiftHalf(x: nat, j: nat)
    ensures Shift(x, j) / 2 == Shift(x / 2, j)
  {
    if j > 0 { ShiftHalf(x, j - 1); }
  }

  lemma {:induction false} BitOfShift(x: nat, j: nat)
    ensures Bit(x, j) <==> Shift(x, j) % 2 == 1
  {
    if j > 0 {
      BitOfShift(x / 2, j - 1);
      ShiftHalf(x, j - 1);
    }
  }

  lemma SetPrefix(words: seq<nat>, u: set<nat>, count: nat, i: nat, j: nat)
    requires BitmapAgrees(words, u, count) && i < |words| && j <= WORD_BITS
    requires forall m :: 0 <= m < j ==> Bit(words[i], m)
    ensures forall m: nat :: i * WORD_BITS <= m < i * WORD_BITS + j ==> m in u
  {
    forall m: nat | i * WORD_BITS <= m < i * WORD_BITS + j ensures m in u {
      var r := m - i * WORD_BITS;
      ModUnique(m, i, WORD_BITS);
      assert Bit(words[i], r);
      assert BitAt(words, m);
    }
  }

  lemma FullWord(words: seq<nat>, u: set<nat>, count: nat, i: nat)
    requires BitmapAgrees(words, u, count) && i < |words| && words[i] == WORD_MAX
    ensures forall m: nat :: i * WORD_BITS <= m < (i + 1) * WORD_BITS ==> m in u
  {
    WordRange();
    AllOnes(words[i], WORD_BITS);
    SetPrefix(words, u, count, i, WORD_BITS);
  }

  // The two scans of slab_alloc: the first word that is not all ones, then its
  // lowest zero bit. Both stop, inside the bitmap, at the lowest free index.
  method FindFree(words: seq<nat>, ghost u: set<nat>, ghost count: nat) returns (i: nat, j: nat)
    requires BitmapAgrees(words, u, count) && FirstUnused(u, 0, count) < count
    ensures i < |words| && j < WORD_BITS
    ensures i * WORD_BITS + j == FirstUnused(u, 0, count)
  {
    ghost var first := FirstUnused(u, 0, count);
    assert !BitAt(words, first);
    WordRange();
    i := 0;
    while words[i] == WORD_MAX
      invariant i * WORD_BITS <= first && i < |words|
      invariant forall m: nat :: m < i * WORD_BITS ==> m in u
      decreases |words| - i
    {
      FullWord(words, u, count, i);
      i := i + 1;
    }
    AllOnes(words[i], 32);
    var bmap := words[i];
    j := 0;
    while bmap % 2 == 1
      invariant j <= WORD_BITS && bmap == Shift(words[i], j)
      invariant forall m :: 0 <= m < j ==> Bit(words[i], m)
      decreases WORD_BITS - j
    {
      BitOfShift(words[i], j);
      bmap := bmap / 2;
      j := j + 1;
    }
    BitOfShift(words[i], j);
    assert j < WORD_BITS;
    SetPrefix(words, u, count, i, j);
    assert (i * WORD_BITS + j) / WORD_BITS == i && (i * WORD_BITS + j) % WORD_BITS == j;
    assert !BitAt(words, i * WORD_BITS + j);
  }

  /* The slab fields in memory */

  // A header and a bitmap of this many words end before the first object begins.
  predicate InFront(c: Cache, words: nat) {
    SLAB_HEADER + WORD_BYTES * words <= ObjectOffset(c.size, c.count)
  }

  ghost predicate MemoryAgrees(c: Cache, pages: nat, free: seq<nat>, slabOf: seq<nat>, bitmap: seq<seq<nat>>) {
    && |free| == |slabOf| == |bitmap| == pages
    && forall p :: p in c.used ==>
         Aligned(p, SLAB_ORDER) && p + 1 < pages && free[p] == FreeCount(c, p)
         && slabOf[p] == p && slabOf[p + 1] == p && BitmapAgrees(bitmap[p], c.used[p], c.count)
         && InFront(c, |bitmap[p]|)
  }

  // The layout fields of struct slab_cache.
  ghost predicate SizesAgree(c: Cache, objectSize: nat, objectCount: nat, objectOffset: nat) {
    objectSize == c.size && objectCount == c.count && objectOffset == ObjectOffset(c.size, c.count)
  }

  // The two list heads and what hangs off them.
  ghost predicate LinksAgree(c: Cache, lists: map<nat, seq<nat>>, partial: nat, full: nat) {
    lists == map[partial := c.partial, full := c.full]
  }

  // Number of bitmap words that memset clears in front of the objects.
  function WordCount(size: nat, count: nat): nat
    requires Fits(SLAB_SPACE, size, count)
  {
    (ObjectOffset(size, count) - SLAB_HEADER) / WORD_BYTES
  }

  function ZeroWords(n: nat): seq<nat> {
    seq(n, _ => 0)
  }

  lemma RoomForBitmap(size: nat, count: nat)
    requires Fits(SLAB_SPACE, size, count)
    ensures count <= WORD_BITS * WordCount(size, count)
  {
    assert count * size == size * count;
  }

  lemma FreshBitmap(size: nat, count: nat)
    requires Fits(SLAB_SPACE, size, count)
    ensures BitmapAgrees(ZeroWords(WordCount(size, count)), {}, count)
  {
    RoomForBitmap(size, count);
    forall k: nat ensures !BitAt(ZeroWords(WordCount(size, count)), k) { BitZero(k % WORD_BITS); }
  }

  lemma ClearedInFront(c: Cache)
    requires Fits(SLAB_SPACE, c.size, c.count)
    ensures InFront(c, |ZeroWords(WordCount(c.size, c.count))|)
  {
    assert c.count * c.size == c.size * c.count;
  }

  lemma GrowAgrees(c: Cache, free: seq<nat>, slabOf: seq<nat>, bitmap: seq<seq<nat>>, p: nat)
    requires MemoryAgrees(c, |free|, free, slabOf, bitmap) && CacheInv(c)
    requires p !in c.used && Aligned(p, SLAB_ORDER) && p + 1 < |free|
    ensures MemoryAgrees(AddSlab(c, p), |free|, free[p := c.count], slabOf[p := p][p + 1 := p],
                         bitmap[p := ZeroWords(WordCount(c.size, c.count))])
  {
    FreshBitmap(c.size, c.count);
    ClearedInFront(c);
    var d := AddSlab(c, p);
    forall q | q in c.used && q != p
      ensures p + 1 != q && q + 1 != p && FreeCount(d, q) == FreeCount(c, q)
    {
      SlabsApart(p, q);
      SlabsApart(q, p);
    }
  }

  // Writing one slab's counter and bitmap keeps the memory in step.
  lemma UpdateAgrees(c: Cache, d: Cache, p: nat, u: set<nat>, free: seq<nat>, slabOf: seq<nat>,
                     bitmap: seq<seq<nat>>, words: seq<nat>)
    requires MemoryAgrees(c, |free|, free, slabOf, bitmap) && p in c.used
    requires d.size == c.size && d.count == c.count && d.used == c.used[p := u] && FreeCount(d, p) >= 0
    requires BitmapAgrees(words, u, c.count) && |words| == |bitmap[p]|
    ensures MemoryAgrees(d, |free|, free[p := FreeCount(d, p)], slabOf, bitmap[p := words])
  {
    assert forall q :: q in c.used && q != p ==> FreeCount(d, q) == FreeCount(c, q);
  }

  // One more object of slab p in use.
  lemma MarkAgrees(c: Cache, d: Cache, p: nat, i: nat, free: seq<nat>, slabOf: seq<nat>, bitmap: seq<seq<nat>>)
    requires MemoryAgrees(c, |free|, free, slabOf, bitmap) && InRange(c) && p in c.used && i < c.count && i !in c.used[p]
    requires d.size == c.size && d.count == c.count && d.used == c.used[p := c.used[p] + {i}]
    ensures p < |free| && free[p] >= 1 && i / WORD_BITS < |bitmap[p]|
    ensures MemoryAgrees(d, |free|, free[p := free[p] - 1], slabOf, bitmap[p := WithBit(bitmap[p], i)])
  {
    Occupied(c, p, i, d);
    SetBit(bitmap[p], c.used[p], c.count, i);
    UpdateAgrees(c, d, p, c.used[p] + {i}, free, slabOf, bitmap, WithBit(bitmap[p], i));
  }

  lemma TakeAgrees(c: Cache, free: seq<nat>, slabOf: seq<nat>, bitmap: seq<seq<nat>>)
    requires MemoryAgrees(c, |free|, free, slabOf, bitmap) && CacheInv(c) && c.partial != []
    ensures c.partial[0] in c.used && c.partial[0] < |free| && free[c.partial[0]] >= 1
    ensures Take(c).2 / WORD_BITS < |bitmap[c.partial[0]]|
    ensures MemoryAgrees(Take(c).0, |free|, free[c.partial[0] := free[c.partial[0]] - 1], slabOf,
                         bitmap[c.partial[0] := WithBit(bitmap[c.partial[0]], Take(c).2)])
  {
    assert c.partial[0] in c.partial;
    RoomInPartial(c, c.partial[0]);
    MarkAgrees(c, Take(c).0, c.partial[0], Take(c).2, free, slabOf, bitmap);
  }

  lemma ReleaseAgrees(c: Cache, free: seq<nat>, slabOf: seq<nat>, bitmap: seq<seq<nat>>, p: nat, i: nat)
    requires MemoryAgrees(c, |free|, free, slabOf, bitmap) && CacheInv(c) && IsLive(c, p, i)
    ensures p < |free| && i / WORD_BITS < |bitmap[p]|
    ensures MemoryAgrees(Release(c, p, i), |free|, free[p := free[p] + 1], slabOf,
                         bitmap[p := WithoutBit(bitmap[p], i)])
  {
    var u := c.used[p] - {i};
    ClearBit(bitmap[p], c.used[p], c.count, i);
    assert FreeCount(Release(c, p, i), p) == FreeCount(c, p) + 1;
    UpdateAgrees(c, Release(c, p, i), p, u, free, slabOf, bitmap, WithoutBit(bitmap[p], i));
  }

  lemma AppendedLists(lists: map<nat, seq<nat>>, to: nat, other: nat, a: seq<nat>, b: seq<nat>, p: nat)
    requires lists == map[to := a, other := b] && to != other && p != to && p != other && p !in a && p !in b
    ensures Detached(lists, p) && (lists - {p})[to := a + [p]] == map[to := a + [p], other := b]
  {
  }

  lemma MovedLists(lists: map<nat, seq<nat>>, from: nat, to: nat, a: seq<nat>, b: seq<nat>, p: nat)
    requires lists == map[from := a, to := b] && from != to && p != from && p != to
    ensures (lists[from := Without(a, p)] - {p})[to := Inserted(b, 0, p)]
         == map[from := Without<nat>(a, p), to := [p] + b]
  {
    assert Inserted(b, 0, p) == [p] + b;
  }

  lemma MovedBack(lists: map<nat, seq<nat>>, from: nat, to: nat, a: seq<nat>, b: seq<nat>, p: nat)
    requires lists == map[to := b, from := a] && from != to && p != from && p != to
    ensures (lists[from := Without(a, p)] - {p})[to := b + [p]] == map[to := b + [p], from := Without<nat>(a, p)]
  {
  }

  class SlabCache {
    const zone: Zone
    const links: ListPool
    const partial: nat
    const full: nat
    var slabOf: seq<nat>
    var free: seq<nat>
    var bitmap: seq<seq<nat>>
    var objectSize: nat
    var objectCount: nat
    var objectOffset: nat
    ghost var c: Cache

    // The objects this cache is made of are different objects.
    ghost predicate Separate() {
      && zone.chains != links
      && zone.chains.next != links.next && zone.chains.next != links.prev
      && zone.chains.prev != links.next && zone.chains.prev != links.prev
      && zone.order.Length <= partial < full < links.next.Length
    }

    ghost predicate Lists(d: Cache)
      reads links, links.next, links.prev
    {
      links.Valid() && LinksAgree(d, links.lists, partial, full)
    }

    // The cache's own memory agrees with d.
    ghost predicate Holds(d: Cache)
      reads this, links, links.next, links.prev
    {
      && Separate() && CacheInv(d) && Lists(d) && MemoryAgrees(d, zone.order.Length, free, slabOf, bitmap)
      && SizesAgree(d, objectSize, objectCount, objectOffset)
    }

    // The ghost state catches up with the memory.
    ghost method Adopt(d: Cache)
      requires Separate() && CacheInv(d) && Lists(d) && MemoryAgrees(d, zone.order.Length, free, slabOf, bitmap)
      requires SizesAgree(d, objectSize, objectCount, objectOffset)
      modifies this`c
      ensures c == d && Holds(d)
    {
      c := d;
    }

    ghost predicate Valid()
      reads this, zone, zone.chains, zone.chains.next, zone.chains.prev, zone.order
      reads links, links.next, links.prev
    {
      Holds(c) && zone.Valid() && SlabsAreLive(zone.s, c)
    }

    ghost function Sys(): System
      reads this, zone
    {
      System(zone.s, c)
    }

    // slab_cache_create accepts every request; the cache works if the request is usable.
    constructor (zone: Zone, size: nat, align: nat)
      requires zone.Valid() && 1 <= align < WORD_RANGE && size < WORD_RANGE
      ensures this.zone == zone && Sys() == Create(zone.s, size, align)
      ensures Usable(size, align) ==> Valid()
      ensures fresh(links) && fresh(links.next) && fresh(links.prev)
    {
      var pages := zone.order.Length;
      this.zone := zone;
      links := new ListPool(pages + 2);
      slabOf, free, bitmap := ZeroWords(pages), ZeroWords(pages), seq(pages, _ => []);
      partial, full := pages, pages + 1;
      objectSize := ObjectSize(size, align);
      objectCount := ObjectCount(ObjectSize(size, align), SLAB_SPACE);
      objectOffset := U32(SLAB_SPACE - ObjectSize(size, align) * ObjectCount(ObjectSize(size, align), SLAB_SPACE));
      c := Create(zone.s, size, align).cache;
      CreateOk(zone.s, size, align);
      OffsetInSlab(Create(zone.s, size, align).cache);
      new;
      InitLists();
    }

    method InitLists()
      requires links.Valid() && links.lists == map[] && partial < full < links.next.Length
      modifies links, links.next, links.prev
      ensures links.Valid() && links.lists == map[partial := [], full := []]
    {
      links.InitHead(partial);
      links.InitHead(full);
    }

    // Adds a slab if the page allocator has one.
    method Grow()
      requires Valid()
      modifies this`c, zone`s, zone.chains, zone.chains.next, zone.chains.prev, zone.order
      modifies this`slabOf, this`free, this`bitmap, links, links.next, links.prev
      ensures Valid() && Sys() == Slab.Grow(old(Sys()))
    {
      AllocPreserves(zone.s, SLAB_ORDER);
      ghost var before := Sys();
      var page := zone.AllocPages(SLAB_ORDER);
      if page == None {
        return;
      }
      var p := page.value;
      AddSlabOk(before, p);
      SlabInit(p);
    }

    method SlabInit(p: nat)
      requires Holds(c) && p !in c.used && Aligned(p, SLAB_ORDER) && p + 1 < zone.order.Length
      modifies this`c, this`slabOf, this`free, this`bitmap, links, links.next, links.prev
      ensures Holds(c) && c == AddSlab(old(c), p)
    {
      AddSlabPreserves(c, p);
      InitFields(p);
      AppendPartial(p);
      Adopt(AddSlab(c, p));
    }

    // The header of the new slab and the back pointers of its pages.
    method InitFields(p: nat)
      requires Separate() && MemoryAgrees(c, zone.order.Length, free, slabOf, bitmap) && CacheInv(c)
      requires SizesAgree(c, objectSize, objectCount, objectOffset)
      requires p !in c.used && Aligned(p, SLAB_ORDER) && p + 1 < zone.order.Length
      modifies this`slabOf, this`free, this`bitmap
      ensures MemoryAgrees(AddSlab(c, p), zone.order.Length, free, slabOf, bitmap)
    {
      GrowAgrees(c, free, slabOf, bitmap, p);
      bitmap := bitmap[p := ZeroWords((objectOffset - SLAB_HEADER) / WORD_BYTES)];
      free := free[p := objectCount];
      SetOwner(p);
    }

    // list_insert_before on the head of the partial list.
    method AppendPartial(p: nat)
      requires Separate() && Lists(c)
      requires p !in c.partial && p !in c.full && p < zone.order.Length
      modifies links, links.next, links.prev
      ensures Lists(c.(partial := c.partial + [p]))
    {
      AppendedLists(links.lists, partial, full, c.partial, c.full, p);
      links.AddTail(partial, p);
    }

    // The scan of slab_alloc finds the object that Take chooses.
    method FindObject(p: nat) returns (off: nat)
      requires CacheInv(c) && MemoryAgrees(c, zone.order.Length, free, slabOf, bitmap)
      requires c.partial != [] && p == c.partial[0]
      ensures p in c.used && off == Take(c).2
    {
      assert p in c.partial;
      RoomInPartial(c, p);
      var i, j := FindFree(bitmap[p], c.used[p], c.count);
      off := i * WORD_BITS + j;
    }

    // Marks the lowest free object of the first partial slab and returns its address.
    method SlabAlloc(p: nat) returns (ptr: int)
      requires CacheInv(c) && MemoryAgrees(c, zone.order.Length, free, slabOf, bitmap)
      requires SizesAgree(c, objectSize, objectCount, objectOffset)
      requires c.partial != [] && p == c.partial[0]
      modifies this`free, this`bitmap
      ensures p in c.used && ptr == ObjectAddress(c, p, Take(c).2)
      ensures MemoryAgrees(Take(c).0, zone.order.Length, free, slabOf, bitmap)
    {
      var off := FindObject(p);
      TakeAgrees(c, free, slabOf, bitmap);
      free := free[p := free[p] - 1];
      bitmap := bitmap[p := WithBit(bitmap[p], off)];
      ptr := SlabAddress(p) + objectOffset + off * objectSize;
    }

    // A slab with no free object left moves to the front of the full list.
    method MoveToFull(p: nat)
      requires Separate() && Lists(c)
      requires p in c.partial && Distinct(c.partial) && p !in c.full && p < zone.order.Length
      modifies links, links.next, links.prev
      ensures Lists(c.(partial := Without<nat>(c.partial, p), full := [p] + c.full))
    {
      ghost var before := links.lists;
      links.Remove(p, partial);
      links.InsertAfter(full, p, full, 0);
      MovedLists(before, partial, full, c.partial, c.full, p);
    }

    // Moves the slab just allocated from if it became full.
    method FileTaken(p: nat)
      requires Separate() && CacheInv(c) && Lists(c) && c.partial != [] && c.partial[0] == p && p in c.used
      requires MemoryAgrees(Take(c).0, zone.order.Length, free, slabOf, bitmap)
      requires SizesAgree(c, objectSize, objectCount, objectOffset)
      modifies this`c, links, links.next, links.prev
      ensures Holds(c) && c == Take(old(c)).0
    {
      assert p in c.partial && p !in c.full;
      assert CacheInv(Take(c).0) by { TakePreserves(c); }
      if free[p] == 0 {
        MoveToFull(p);
      }
      Adopt(Take(c).0);
    }

    method TakeObject() returns (ptr: int)
      requires Holds(c) && c.partial != []
      modifies this`c, this`free, this`bitmap, links, links.next, links.prev
      ensures old(c.partial[0]) in old(c.used) && Holds(c) && c == Take(old(c)).0
      ensures ptr == ObjectAddress(old(c), Take(old(c)).1, Take(old(c)).2)
    {
      var p := links.First(partial);
      ptr := SlabAlloc(p);
      FileTaken(p);
    }

    method Deliver() returns (ptr: int)
      requires Holds(c) && zone.Valid() && c.partial != []
      modifies this`c, this`free, this`bitmap, links, links.next, links.prev
      ensures old(c.partial[0]) in old(c.used) && Holds(c) && zone.Valid()
      ensures Sys() == old(Sys()).(cache := Take(old(c)).0)
      ensures ptr == ObjectAddress(old(c), Take(old(c)).1, Take(old(c)).2)
    {
      ptr := TakeObject();
    }

    method SlabCacheAlloc() returns (ptr: Option<int>)
      requires Valid()
      modifies this`c, zone`s, zone.chains, zone.chains.next, zone.chains.prev, zone.order
      modifies this`slabOf, this`free, this`bitmap, links, links.next, links.prev
      ensures Valid() && Defined(old(Sys())) && (Sys(), ptr) == AllocObject(old(Sys()))
    {
      AllocObjectPreserves(Sys());
      GrowIfEmpty();
      var empty := links.Empty(partial);
      if empty {
        return None;
      }
      var found := Deliver();
      return Some(found);
    }

    method GrowIfEmpty()
      requires Valid()
      modifies this`c, zone`s, zone.chains, zone.chains.next, zone.chains.prev, zone.order
      modifies this`slabOf, this`free, this`bitmap, links, links.next, links.prev
      ensures Valid() && Sys() == Stocked(old(Sys()))
    {
      var empty := links.Empty(partial);
      if empty {
        Grow();
      }
    }

    // Clears the object's bit and counts it free.
    method SlabFree(p: nat, ptr: int)
      requires Holds(c) && p in c.used && IndexOf(c, p, ptr) >= 0 && IsLive(c, p, IndexOf(c, p, ptr))
      modifies this`free, this`bitmap
      ensures MemoryAgrees(Release(c, p, IndexOf(c, p, ptr)), zone.order.Length, free, slabOf, bitmap)
    {
      var bit := (ptr - (SlabAddress(p) + objectOffset)) / objectSize;
      ReleaseAgrees(c, free, slabOf, bitmap, p, bit);
      bitmap := bitmap[p := WithoutBit(bitmap[p], bit)];
      free := free[p := free[p] + 1];
    }

    // A slab that was full goes back to the tail of the partial list.
    method MoveToPartial(p: nat)
      requires Separate() && Lists(c)
      requires p in c.full && p !in c.partial && p < zone.order.Length
      modifies links, links.next, links.prev
      ensures Lists(c.(full := Without<nat>(c.full, p), partial := c.partial + [p]))
    {
      ghost var before := links.lists;
      links.Remove(p, full);
      links.AddTail(partial, p);
      MovedBack(before, full, partial, c.full, c.partial, p);
    }

    method FileReleased(p: nat, ghost i: nat, wasFull: bool)
      requires Separate() && Lists(c) && Filed(c)
      requires p in c.used && p < zone.order.Length && wasFull == (FreeCount(c, p) == 0)
      modifies links, links.next, links.prev
      ensures Lists(Release(c, p, i))
    {
      if wasFull {
        MoveToPartial(p);
      }
    }

    method ReleaseObject(p: nat, ptr: int)
      requires Holds(c) && p in c.used && IndexOf(c, p, ptr) >= 0 && IsLive(c, p, IndexOf(c, p, ptr))
      modifies this`c, this`free, this`bitmap, links, links.next, links.prev
      ensures Holds(c) && c == Release(old(c), p, IndexOf(old(c), p, ptr))
    {
      var wasFull := free[p] == 0;
      ghost var i := IndexOf(c, p, ptr);
      assert CacheInv(Release(c, p, i)) by { ReleasePreserves(c, p, i); }
      SlabFree(p, ptr);
      FileReleased(p, i, wasFull);
      Adopt(Release(c, p, i));
    }

    // Frees a live object; the slab is found through the back pointer of its page.
    method SlabCacheFree(ptr: int)
      requires Valid() && LiveAddress(c, ptr)
      modifies this`c, this`free, this`bitmap, links, links.next, links.prev
      ensures Valid() && LiveAddress(old(c), ptr) && Sys() == FreeObject(old(Sys()), ptr)
    {
      var slab := FindSlab(ptr);
      ReleaseObject(slab, ptr);
    }

    method FindSlab(ptr: int) returns (slab: nat)
      requires Valid() && LiveAddress(c, ptr)
      ensures slab == SlabOf(ptr)
    {
      BackPointer(Sys(), ptr);
      var page := (ptr - PAGE_OFFSET) / PAGE_SIZE;
      slab := slabOf[page];
    }

    // slab_cache_fini: asserts that the full list is empty, then walks the partial list
    // and frees every slab, reading its link before its pages are given back. The result
    // tells whether all assertions passed; the code stops at the first that does not.
    method Destroy() returns (ok: bool)
      requires Valid()
      modifies zone`s, zone.chains, zone.chains.next, zone.chains.prev, zone.order
      ensures Owned(old(zone.s), c, c.partial) && zone.Valid() && (zone.s, ok) == Destruction(old(Sys()))
    {
      SlabsOwned(Sys());
      var empty := links.Empty(full);
      if !empty {
        return false;
      }
      ok := FreeSlabs();
    }

    method FreeSlabs() returns (ok: bool)
      requires Holds(c) && zone.Valid() && Owned(zone.s, c, c.partial)
      modifies zone`s, zone.chains, zone.chains.next, zone.chains.prev, zone.order
      ensures zone.Valid() && (zone.s, ok) == Fini(old(zone.s), c, c.partial)
    {
      ghost var n := 0;
      var curr := FirstSlab();
      assert c.partial[0..] == c.partial;
      while curr != partial
        invariant n <= |c.partial| && zone.Valid() && curr == SlabAt(c, n)
        invariant Owned(zone.s, c, c.partial[n..])
        invariant Fini(zone.s, c, c.partial[n..]) == Fini(old(zone.s), c, c.partial)
        decreases |c.partial| - n
      {
        var slab := curr;
        ghost var m := n + 1;
        var next, isEmpty := NextSlab(slab, n, m);
        FiniStep(zone.s, c, c.partial, n, m);
        if !isEmpty {
          return false;
        }
        curr := next;
        zone.FreePages(slab, SLAB_ORDER);
        n := m;
      }
      return true;
    }

    // The n-th slab of the partial list, or its head behind the last one.
    ghost function SlabAt(d: Cache, n: nat): nat
      requires n <= |d.partial|
    {
      Node(partial, d.partial, n + 1)
    }

    // The second assertion of slab_cache_fini, and the link of the slab.
    method NextSlab(slab: nat, ghost n: nat, ghost m: nat) returns (next: nat, isEmpty: bool)
      requires Holds(c) && n <= |c.partial| && m == n + 1 && slab == SlabAt(c, n) != partial
      ensures m <= |c.partial| && slab == c.partial[n] && next == SlabAt(c, m)
      ensures slab in c.used && (isEmpty <==> FreeCount(c, slab) == c.count)
    {
      assert slab in c.partial;
      isEmpty := free[slab] == objectCount;
      RingStep(links.next[..], links.prev[..], links.lists, partial, n + 1);
      next := links.next[slab];
    }

    method FirstSlab() returns (slab: nat)
      requires Separate() && Lists(c)
      ensures slab == SlabAt(c, 0)
    {
      RingStep(links.next[..], links.prev[..], links.lists, partial, 0);
      slab := links.next[partial];
    }

    // pages[i].slab = slab, for both pages.
    method SetOwner(p: nat)
      requires p + 1 < |slabOf|
      modifies this`slabOf
      ensures slabOf == old(slabOf)[p := p][p + 1 := p]
    {
      for i := 0 to 2
        invariant |slabOf| == |old(slabOf)|
        invariant slabOf == if i == 0 then old(slabOf) else if i == 1 then old(slabOf)[p := p]
                            else old(slabOf)[p := p][p + 1 := p]
      {
        slabOf := slabOf[p + i := p];
      }
    }
  }

  lemma AddSlabOk(y: System, p: nat)
    requires SystemInv(y) && Alloc(y.buddy, SLAB_ORDER).1 == Some(p)
    ensures p !in y.cache.used && Aligned(p, SLAB_ORDER) && p + 1 < y.buddy.hi
    ensures SystemInv(System(Alloc(y.buddy, SLAB_ORDER).0, AddSlab(y.cache, p)))
  {
    AllocPreserves(y.buddy, SLAB_ORDER);
    AddSlabPreserves(y.cache, p);
    var b := Alloc(y.buddy, SLAB_ORDER).0;
    LiveBlock(b, p);
    assert Pow2(1) == 2;
    assert p + 1 in Block(p, 1);
    assert LiveAt(b.live, p + 1, 1);
  }

  // The back pointer of the page an object starts in names the object's slab.
  lemma BackPointer(y: System, addr: int)
    requires SystemInv(y) && LiveAddress(y.cache, addr)
    ensures var page := (addr - PAGE_OFFSET) / PAGE_SIZE; var p := SlabOf(addr);
            page >= 0 && Aligned(p, SLAB_ORDER) && p <= page <= p + 1
  {
    BaseAligned((addr - PAGE_OFFSET) / PAGE_SIZE, SLAB_ORDER);
    BaseBounds((addr - PAGE_OFFSET) / PAGE_SIZE, SLAB_ORDER);
    assert Pow2(1) == 2;
  }

  lemma RingStep(nx: seq<nat>, pv: seq<nat>, lists: map<nat, seq<nat>>, h: nat, i: nat)
    requires WellLinked(nx, pv, lists) && h in lists && i <= |lists[h]|
    ensures Node(h, lists[h], i) < |nx| && nx[Node(h, lists[h], i)] == Node(h, lists[h], i + 1)
  {
    assert Joined(nx, pv, Node(h, lists[h], i), Node(h, lists[h], i + 1));
  }

  // One round of the loop of slab_cache_fini.
  lemma FiniStep(b: State, d: Cache, ps: seq<nat>, n: nat, m: nat)
    requires n < |ps| && m == n + 1 && Owned(b, d, ps[n..])
    ensures ps[n] in b.live && b.live[ps[n]] == SLAB_ORDER && ps[n] in d.used
    ensures if FreeCount(d, ps[n]) == d.count
            then Owned(Free(b, ps[n]), d, ps[m..]) && Fini(b, d, ps[n..]) == Fini(Free(b, ps[n]), d, ps[m..])
            else Fini(b, d, ps[n..]) == (b, false)
  {
    assert ps[n..][0] == ps[n] && ps[n..][1..] == ps[m..];
  }

  lemma OffsetInSlab(d: Cache)
    ensures Fits(SLAB_SPACE, d.size, d.count) ==> U32(ObjectOffset(d.size, d.count)) == ObjectOffset(d.size, d.count)
  {
    assert d.size * d.count == d.count * d.size;
  }
}
