/**
 The layout arithmetic of kernel/slab_cache.c. A slab is two pages: a header of
 SLAB_HEADER bytes, a bitmap of 32-bit words, and the objects at the far end.
 */
module SlabLayout {
  import opened Bits
  import opened Words

  const SLAB_ORDER: nat := 1
  const SLAB_SPACE: nat := 8192
  const SLAB_HEADER: nat := 16
  const WORD_BYTES: nat := 4
  const WORD_BITS: nat := 32

  function ObjectSize(size: nat, alignment: nat): (r: nat)
    requires alignment >= 1
    ensures alignment < WORD_RANGE ==> r < WORD_RANGE
  {
    if alignment >= size then alignment
    else U32(alignment * (U32(size + alignment - 1) / alignment))
  }

  function ObjectCount(size: nat, space: nat): nat
    requires size < WORD_RANGE
  {
    U32(8 * (space - SLAB_HEADER - WORD_BYTES) + 1) / DivisorOf(size)
  }

  // The divisor CHAR_BIT * size + 1 is odd, so it is never zero even after wrapping.
  function DivisorOf(size: nat): (r: nat)
    ensures r >= 1
    ensures size < 0x2000_0000 ==> r == 8 * size + 1
  {
    assert 8 * size + 1 == (8 * size + 1) / WORD_RANGE * WORD_RANGE + U32(8 * size + 1);
    U32(8 * size + 1)
  }

  // Bytes of whole bitmap words for n objects.
  function BitmapBytes(n: nat): nat {
    WORD_BYTES * ((n + WORD_BITS - 1) / WORD_BITS)
  }

  // Header, bitmap and n objects of the given size fit into the space.
  predicate Fits(space: nat, size: nat, n: nat) {
    SLAB_HEADER + BitmapBytes(n) + n * size <= space
  }

  lemma NoWrap(x: nat, a: nat)
    requires a >= 1 && x < WORD_RANGE
    ensures U32(a * (U32(x) / a)) == x / a * a
  {
    var q := x / a;
    assert 0 <= q * a <= x by { DivBounds(x, a); }
    Commute(a, q);
    assert U32(a * q) == a * q;
  }

  lemma Commute(a: nat, b: nat)
    ensures a * b == b * a
  {
  }

  lemma Wrapped(x: nat, a: nat)
    requires a >= 1 && WORD_RANGE <= x < WORD_RANGE + a <= 2 * WORD_RANGE
    ensures U32(a * (U32(x) / a)) == 0
  {
    assert U32(x) == x - WORD_RANGE;
    ModUnique(x - WORD_RANGE, 0, a);
  }

  // The object size is the least multiple of the alignment, not zero, that holds the
  // object; but when the addition wraps around it is zero.
  lemma SizeIsLeastMultiple(size: nat, alignment: nat)
    requires 1 <= alignment < WORD_RANGE && size < WORD_RANGE
    ensures var r := ObjectSize(size, alignment);
            if size <= alignment || size + alignment <= WORD_RANGE
            then r >= size && r >= 1 && r % alignment == 0 && (r < size + alignment || r == alignment)
            else r == 0
  {
    if alignment >= size {
      MultipleMod(1, alignment);
    } else if size + alignment <= WORD_RANGE {
      NoWrap(size + alignment - 1, alignment);
      RoundUp(size, alignment);
    } else {
      Wrapped(size + alignment - 1, alignment);
    }
  }

  // No smaller multiple would do.
  lemma NoSmallerMultiple(size: nat, alignment: nat, m: nat)
    requires 1 <= alignment < WORD_RANGE && size < WORD_RANGE
    requires m >= 1 && m >= size && m % alignment == 0
    ensures ObjectSize(size, alignment) <= m
  {
    SizeIsLeastMultiple(size, alignment);
    MultiplesApart(m, ObjectSize(size, alignment), alignment);
    assert 0 % alignment == 0;
    MultiplesApart(0, m, alignment);
  }

  lemma RoundUp(size: nat, a: nat)
    requires a >= 1
    ensures var r := (size + a - 1) / a * a; size <= r < size + a && r % a == 0
  {
    var q := (size + a - 1) / a;
    DivBounds(size + a - 1, a);
    assert (q + 1) * a == q * a + a;
    MultipleMod(q, a);
  }

  lemma MultipleMod(q: nat, a: nat)
    requires a >= 1
    ensures (q * a) % a == 0
  {
    ModUnique(q * a, q, a);
  }

  lemma DivBounds(a: nat, d: nat)
    requires d >= 1
    ensures a / d * d <= a < (a / d + 1) * d
  {
  }

  // n <= a / d says the same as n * d <= a.
  lemma DivAdjoint(n: nat, a: nat, d: nat)
    requires d >= 1
    ensures n <= a / d <==> n * d <= a
  {
    DivBounds(a, d);
    MulMono(n, a / d, d);
    MulMono(a / d + 1, n, d);
  }

  lemma CountAdjoint(n: nat, size: nat, space: nat)
    requires size < 0x2000_0000 && SLAB_HEADER + WORD_BYTES <= space < 0x1000_0000
    ensures n <= ObjectCount(size, space) <==> 8 * (n * size) + n <= 8 * (space - SLAB_HEADER - WORD_BYTES) + 1
  {
    DivAdjoint(n, 8 * (space - SLAB_HEADER - WORD_BYTES) + 1, 8 * size + 1);
    assert n * (8 * size + 1) == 8 * (n * size) + n;
  }

  // What the count means for any size: n objects are not too many exactly when header,
  // objects and n bits, with the 31 that the last word may leave unused, fit into the bits
  // of the space.
  lemma CountMeaning(n: nat, size: nat, space: nat)
    requires size < 0x2000_0000 && SLAB_HEADER + WORD_BYTES <= space < 0x1000_0000
    ensures n <= ObjectCount(size, space) <==> 8 * SLAB_HEADER + (n + WORD_BITS - 1) + 8 * (n * size) <= 8 * space
  {
    CountAdjoint(n, size, space);
  }

  // The chosen number of objects fits together with its bitmap.
  lemma LayoutFits(size: nat, space: nat)
    requires size < 0x2000_0000 && SLAB_HEADER + WORD_BYTES <= space < 0x1000_0000
    ensures Fits(space, size, ObjectCount(size, space))
  {
    CountAdjoint(ObjectCount(size, space), size, space);
  }

  // One bitmap word for the last object alone: whole words for n objects.
  lemma OddWordBytes(n: nat)
    requires n % WORD_BITS == 1
    ensures 8 * BitmapBytes(n) == n + WORD_BITS - 1
  {
  }

  // The bound is tight: when the last bitmap word would hold a single object, the
  // count is the exact maximum.
  lemma LayoutTight(size: nat, space: nat, n: nat)
    requires size < 0x2000_0000 && SLAB_HEADER + WORD_BYTES <= space < 0x1000_0000
    requires n % WORD_BITS == 1
    ensures Fits(space, size, n) <==> n <= ObjectCount(size, space)
  {
    OddWordBytes(n);
    CountAdjoint(n, size, space);
  }

  // For objects of at least one bitmap word no layout holds more than one extra object.
  lemma LayoutNearOptimal(size: nat, space: nat, n: nat)
    requires WORD_BYTES <= size < 0x2000_0000 && SLAB_HEADER + WORD_BYTES <= space < 0x1000_0000
    requires Fits(space, size, n)
    ensures n <= ObjectCount(size, space) + 1
  {
    if n >= 2 {
      CountAdjoint(n - 1, size, space);
      assert (n - 1) * size == n * size - size;
    }
  }

  // The division of slab_object_count: what remains of it and the unused bits of the
  // last bitmap word together make up for the object that is missing.
  predicate Wastes(size: nat, space: nat)
    requires size < 0x2000_0000 && SLAB_HEADER + WORD_BYTES <= space < 0x1000_0000
  {
    (8 * (space - SLAB_HEADER - WORD_BYTES) + 1) % (8 * size + 1) + ObjectCount(size, space) % WORD_BITS >= 8 * size + 1
  }

  lemma BitmapBits(n: nat)
    ensures 8 * BitmapBytes(n + 1) == n - n % WORD_BITS + WORD_BITS
  {
    assert (n + WORD_BITS) / WORD_BITS == n / WORD_BITS + 1;
  }

  // One more object would fit exactly when the layout wastes that much.
  lemma OneMoreFits(size: nat, space: nat)
    requires size < 0x2000_0000 && SLAB_HEADER + WORD_BYTES <= space < 0x1000_0000
    ensures Fits(space, size, ObjectCount(size, space) + 1) <==> Wastes(size, space)
  {
    var n := ObjectCount(size, space);
    var a, d := 8 * (space - SLAB_HEADER - WORD_BYTES) + 1, 8 * size + 1;
    BitmapBits(n);
    assert (n + 1) * size == n * size + size;
    assert n * d == 8 * (n * size) + n;
    assert a == a / d * d + a % d;
  }

  lemma FewerFit(size: nat, space: nat, m: nat, n: nat)
    requires m <= n && Fits(space, size, n)
    ensures Fits(space, size, m)
  {
    MulMono(m, n, size);
  }

  // The count is the greatest possible exactly when the layout does not waste that much.
  lemma CountIsBestIff(size: nat, space: nat)
    requires size < 0x2000_0000 && SLAB_HEADER + WORD_BYTES <= space < 0x1000_0000
    ensures (forall n: nat :: Fits(space, size, n) ==> n <= ObjectCount(size, space)) <==> !Wastes(size, space)
  {
    OneMoreFits(size, space);
    forall n: nat | Fits(space, size, n) && n > ObjectCount(size, space) ensures Wastes(size, space) {
      FewerFit(size, space, ObjectCount(size, space) + 1, n);
    }
  }

  // For objects of at least one bitmap word this decides which numbers of objects fit.
  lemma FitsIff(size: nat, space: nat, n: nat)
    requires WORD_BYTES <= size < 0x2000_0000 && SLAB_HEADER + WORD_BYTES <= space < 0x1000_0000
    ensures Fits(space, size, n) <==> n <= ObjectCount(size, space) + if Wastes(size, space) then 1 else 0
  {
    OneMoreFits(size, space);
    LayoutFits(size, space);
    if Fits(space, size, n) {
      LayoutNearOptimal(size, space, n);
    } else if n <= ObjectCount(size, space) + 1 && Wastes(size, space) {
      FewerFit(size, space, n, ObjectCount(size, space) + 1);
    } else if n <= ObjectCount(size, space) {
      FewerFit(size, space, n, ObjectCount(size, space));
    }
  }

  // For 16-byte objects it does happen: the bound wastes one.
  lemma LayoutMissesOne()
    ensures ObjectCount(16, SLAB_SPACE) == 506 && Wastes(16, SLAB_SPACE) && Fits(SLAB_SPACE, 16, 507)
  {
    OneMoreFits(16, SLAB_SPACE);
  }

  /* Which caches can be used */

  // Room for objects besides the header and one bitmap word.
  const ROOM: nat := SLAB_SPACE - SLAB_HEADER - WORD_BYTES

  // The request, rounded up to the alignment, does not exceed the room.
  predicate Usable(size: nat, align: nat)
    requires align >= 1
  {
    align <= ROOM && size <= ROOM / align * align
  }

  // An object size leaves room for an object exactly up to ROOM. Beyond that the
  // count is zero, or has wrapped around.
  lemma HoldsOneIff(size: nat)
    requires 1 <= size < WORD_RANGE
    ensures (ObjectCount(size, SLAB_SPACE) >= 1 && Fits(SLAB_SPACE, size, ObjectCount(size, SLAB_SPACE))) <==> size <= ROOM
  {
    var n := ObjectCount(size, SLAB_SPACE);
    if size < 0x2000_0000 {
      CountAdjoint(1, size, SLAB_SPACE);
      LayoutFits(size, SLAB_SPACE);
    } else if n >= 1 {
      MulMono(1, n, size);
    }
  }

  lemma RoundedWithin(size: nat, a: nat, room: nat)
    requires a >= 1
    ensures (size + a - 1) / a * a <= room <==> size <= room / a * a
  {
    var q, m := (size + a - 1) / a, room / a;
    DivBounds(size + a - 1, a);
    DivAdjoint(q, room, a);
    assert (q + 1) * a == q * a + a && (m + 1) * a == m * a + a;
    MulMono(q, m, a);
    MulMono(m + 1, q, a);
  }

  lemma UsableSize(size: nat, align: nat)
    requires 1 <= align < WORD_RANGE && size < WORD_RANGE
    ensures 1 <= ObjectSize(size, align) <= ROOM <==> Usable(size, align)
  {
    DivBounds(ROOM, align);
    if align >= size {
      DivAdjoint(1, ROOM, align);
      MulMono(1, ROOM / align, align);
    } else if size + align <= WORD_RANGE {
      NoWrap(size + align - 1, align);
      RoundUp(size, align);
      RoundedWithin(size, align, ROOM);
      DivAdjoint(1, ROOM, align);
    } else {
      Wrapped(size + align - 1, align);
    }
  }

  // Over all 32-bit requests, wrap-around included: the objects of a cache are as large
  // as requested, at least one fits, and the layout fits into the slab, exactly for
  // usable requests.
  lemma UsableIff(size: nat, align: nat)
    requires 1 <= align < WORD_RANGE && size < WORD_RANGE
    ensures var r := ObjectSize(size, align); var n := ObjectCount(r, SLAB_SPACE);
            (r >= 1 && r >= size && n >= 1 && Fits(SLAB_SPACE, r, n)) <==> Usable(size, align)
  {
    UsableSize(size, align);
    SizeIsLeastMultiple(size, align);
    if ObjectSize(size, align) >= 1 { HoldsOneIff(ObjectSize(size, align)); }
  }

  // Three requests that slab_cache_create accepts: no room for an object, a count that
  // has wrapped to a layout that does not fit, and a size that has wrapped to zero, so
  // that all 65377 objects are at the same place.
  lemma OversizedRequest()
    ensures ObjectSize(8176, 16) == 8176 && ObjectCount(8176, SLAB_SPACE) == 0
    ensures ObjectSize(0x2000_0000, 16) == 0x2000_0000
            && ObjectCount(0x2000_0000, SLAB_SPACE) == 65377 && !Fits(SLAB_SPACE, 0x2000_0000, 65377)
    ensures ObjectSize(0xFFFF_FFFF, 16) == 0 && ObjectCount(0, SLAB_SPACE) == 65377 && Fits(SLAB_SPACE, 0, 65377)
  {
    assert 65377 * 0x2000_0000 > SLAB_SPACE;
  }

  /* Objects inside a slab */

  function ObjectOffset(size: nat, count: nat): int {
    SLAB_SPACE - size * count
  }

  function ObjectAt(base: nat, size: nat, count: nat, i: nat): int {
    base + ObjectOffset(size, count) + i * size
  }

  // Objects lie behind the header and bitmap, inside the slab, and do not overlap.
  lemma ObjectsApart(base: nat, size: nat, count: nat, i: nat, j: nat)
    requires Fits(SLAB_SPACE, size, count) && i < count && j < count
    ensures ObjectAt(base, size, count, i) >= base + SLAB_HEADER + BitmapBytes(count)
    ensures ObjectAt(base, size, count, i) + size <= base + SLAB_SPACE
    ensures i < j ==> ObjectAt(base, size, count, i) + size <= ObjectAt(base, size, count, j)
  {
    MulMono(i + 1, count, size);
    MulMono(i + 1, j, size);
    assert (i + 1) * size == i * size + size;
    assert size * count == count * size;
  }

  // The division in slab_free recovers the index of the object.
  lemma IndexOfObject(base: nat, size: nat, count: nat, i: nat)
    requires size >= 1
    ensures (ObjectAt(base, size, count, i) - (base + ObjectOffset(size, count))) / size == i
  {
    ModUnique(i * size, i, size);
  }

  lemma Combine(a: int, b: int, c: int, d: int, m: nat)
    ensures a * m + (b * m - c * m) + d * m == (a + b - c + d) * m
  {
  }

  lemma TimesMultiple(x: int, c: int, m: nat)
    ensures x * (c * m) == (x * c) * m
  {
  }

  lemma DivMul(x: nat, m: nat)
    requires m >= 1 && x % m == 0
    ensures x == x / m * m
  {
  }

  // Every object is aligned when the alignment divides the slab and its base.
  lemma ObjectsAligned(base: nat, size: nat, count: nat, alignment: nat, i: nat)
    requires alignment >= 1 && size % alignment == 0
    requires base % alignment == 0 && SLAB_SPACE % alignment == 0
    requires Fits(SLAB_SPACE, size, count) && i < count
    ensures ObjectAt(base, size, count, i) >= 0 && ObjectAt(base, size, count, i) % alignment == 0
  {
    var m := alignment;
    var a, b, c := base / m, SLAB_SPACE / m, size / m;
    DivMul(base, m);
    DivMul(SLAB_SPACE, m);
    DivMul(size, m);
    TimesMultiple(count, c, m);
    TimesMultiple(i, c, m);
    Combine(a, b, count * c, i * c, m);
    ObjectsApart(base, size, count, i, i);
    var q := a + b - count * c + i * c;
    assert ObjectAt(base, size, count, i) == q * m;
    MulMono(q, -1, m);
    MultipleMod(q, m);
  }
}
