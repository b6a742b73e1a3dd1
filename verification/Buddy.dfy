/**
 The buddy allocator of kernel/page_alloc.c on values.

 A zone is the set of its free pages, its live blocks, and the free list of every
 order. The lists are what the code manipulates; the theory says that they are
 determined by the set of free pages: list k holds exactly the maximal aligned
 free blocks of order k.
 */
module Buddy {
  import opened Bits
  import opened Seqs

  const MAX_ORDER: nat := 11

  datatype State = State(lo: nat, hi: nat, lists: seq<seq<nat>>, free: set<nat>, live: map<nat, nat>)

  function Interval(lo: nat, n: nat): (r: set<nat>)
    ensures forall x: nat :: x in r <==> lo <= x < lo + n
  {
    if n == 0 then {} else Interval(lo, n - 1) + {lo + n - 1}
  }

  lemma {:induction false} IntervalSize(lo: nat, n: nat)
    ensures |Interval(lo, n)| == n
  {
    if n > 0 { IntervalSize(lo, n - 1); }
  }

  // The pages of the block of order k that starts at p.
  function Block(p: nat, k: nat): set<nat> {
    Interval(p, Pow2(k))
  }

  lemma InBlock(p: nat, k: nat)
    requires Aligned(p, k)
    ensures forall x: nat :: x in Block(p, k) <==> Base(x, k) == p
  {
    forall x: nat ensures x in Block(p, k) <==> Base(x, k) == p {
      BaseBounds(x, k);
      if x in Block(p, k) { BaseUnique(p, x, k); }
    }
  }

  // Every page of the aligned block of order k at p is in F.
  ghost predicate BlockIn(F: set<nat>, p: nat, k: nat) {
    forall x: nat :: Base(x, k) == p ==> x in F
  }

  // The block is aligned, inside F, and not half of a larger such block.
  ghost predicate Maximal(F: set<nat>, p: nat, k: nat) {
    Aligned(p, k) && BlockIn(F, p, k) && (k + 1 < MAX_ORDER ==> !BlockIn(F, Base(p, k + 1), k + 1))
  }

  ghost predicate Canonical(lists: seq<seq<nat>>, F: set<nat>) {
    && |lists| == MAX_ORDER
    && (forall k :: 0 <= k < MAX_ORDER ==> Distinct(lists[k]))
    && (forall k, p: nat :: 0 <= k < MAX_ORDER ==> (p in lists[k] <==> Maximal(F, p, k)))
  }

  /* Adding or removing one maximal block changes no other maximal block. */

  lemma Nested(p: nat, k: nat, q: nat, j: nat, x: nat)
    requires j <= k && Base(x, j) == q && Base(x, k) == p
    ensures forall y: nat :: Base(y, j) == q ==> Base(y, k) == p
  {
    forall y: nat | Base(y, j) == q ensures Base(y, k) == p {
      BaseNest(x, j, k);
      BaseNest(y, j, k);
    }
  }

  lemma StillMaximal(G: set<nat>, p: nat, k: nat, q: nat, j: nat)
    requires Aligned(p, k) && k < MAX_ORDER && j < MAX_ORDER
    requires G !! Block(p, k) && Maximal(G + Block(p, k), p, k) && Maximal(G, q, j)
    ensures Maximal(G + Block(p, k), q, j)
  {
    InBlock(p, k);
    var F := G + Block(p, k);
    var parent := Base(q, j + 1);
    if j + 1 < MAX_ORDER && BlockIn(F, parent, j + 1) {
      // the parent of q lies in F but not in G, so it meets the new block
      var x: nat :| Base(x, j + 1) == parent && x !in G;
      assert x in Block(p, k);
      if j + 1 <= k {
        Nested(p, k, parent, j + 1, x);
        assert false;
      } else {
        BaseNest(x, k, j + 1);
        BaseNest(p, k, k + 1);
        BaseNest(x, k, k + 1);
        Nested(parent, j + 1, Base(p, k + 1), k + 1, x);
        assert false;
      }
    }
  }

  lemma WasMaximal(G: set<nat>, p: nat, k: nat, q: nat, j: nat)
    requires Aligned(p, k) && k < MAX_ORDER && j < MAX_ORDER
    requires G !! Block(p, k) && Maximal(G + Block(p, k), p, k) && Maximal(G + Block(p, k), q, j)
    ensures Maximal(G, q, j) || (q == p && j == k)
  {
    InBlock(p, k);
    var F := G + Block(p, k);
    if !BlockIn(G, q, j) {
      var x: nat :| Base(x, j) == q && x !in G;
      assert x in Block(p, k);
      if j < k {
        BaseNest(x, j, j + 1);
        BaseNest(x, j + 1, k);
        Nested(p, k, Base(q, j + 1), j + 1, x);
        assert false;
      } else if k < j {
        BaseNest(x, k, k + 1);
        Nested(q, j, Base(p, k + 1), k + 1, x);
        assert false;
      }
    }
  }

  lemma AddMaximal(lists: seq<seq<nat>>, G: set<nat>, p: nat, k: nat)
    requires Aligned(p, k) && k < MAX_ORDER
    requires Canonical(lists, G) && G !! Block(p, k) && Maximal(G + Block(p, k), p, k)
    ensures Canonical(lists[k := lists[k] + [p]], G + Block(p, k))
  {
    var next := lists[k := lists[k] + [p]];
    InBlock(p, k);
    assert Base(p, k) == p && p !in G;
    assert p !in lists[k];
    AppendElements(lists[k], p);
    forall j, q: nat | 0 <= j < MAX_ORDER
      ensures q in next[j] <==> Maximal(G + Block(p, k), q, j)
    {
      if Maximal(G, q, j) { StillMaximal(G, p, k, q, j); }
      if Maximal(G + Block(p, k), q, j) { WasMaximal(G, p, k, q, j); }
    }
  }

  lemma RemoveMaximal(lists: seq<seq<nat>>, F: set<nat>, p: nat, k: nat)
    requires k < MAX_ORDER && Canonical(lists, F) && p in lists[k]
    ensures Aligned(p, k) && Block(p, k) <= F
    ensures Canonical(lists[k := Without<nat>(lists[k], p)], F - Block(p, k))
  {
    var next := lists[k := Without<nat>(lists[k], p)];
    var G := F - Block(p, k);
    InBlock(p, k);
    assert F == G + Block(p, k);
    assert Base(p, k) == p && p !in G;
    WithoutElements(lists[k], p);
    forall j, q: nat | 0 <= j < MAX_ORDER
      ensures q in next[j] <==> Maximal(G, q, j)
    {
      if Maximal(G, q, j) { StillMaximal(G, p, k, q, j); assert Base(q, j) == q; }
      if Maximal(F, q, j) { WasMaximal(G, p, k, q, j); }
    }
  }

  /* Freeing */

  // The block pair: a block and its buddy are the two halves of their parent.
  function Lower(p: nat, k: nat): nat {
    if BuddyOf(p, k) < p then BuddyOf(p, k) else p
  }

  lemma ParentBlock(p: nat, k: nat)
    requires Aligned(p, k)
    ensures Aligned(BuddyOf(p, k), k) && Aligned(Lower(p, k), k + 1) && Lower(p, k) == Base(p, k + 1)
    ensures Block(p, k) !! Block(BuddyOf(p, k), k)
    ensures Block(Lower(p, k), k + 1) == Block(p, k) + Block(BuddyOf(p, k), k)
  {
    var b := BuddyOf(p, k);
    BuddyShift(p, k);
    BaseAligned(p, k + 1);
    InBlock(p, k);
    InBlock(b, k);
    InBlock(Lower(p, k), k + 1);
    forall x: nat ensures x in Block(Lower(p, k), k + 1) <==> x in Block(p, k) + Block(b, k) {
      Halves(p, x, k);
    }
  }

  // The lists after block (p, k) has been coalesced upwards and inserted.
  function FreeLists(lo: nat, hi: nat, lists: seq<seq<nat>>, p: nat, k: nat): (r: seq<seq<nat>>)
    requires |lists| == MAX_ORDER && k < MAX_ORDER
    ensures |r| == MAX_ORDER
    decreases MAX_ORDER - k
  {
    var b := BuddyOf(p, k);
    if k < MAX_ORDER - 1 && lo <= b < hi && b in lists[k]
    then FreeLists(lo, hi, lists[k := Without<nat>(lists[k], b)], Lower(p, k), k + 1)
    else lists[k := lists[k] + [p]]
  }

  // A buddy is on the list of its order exactly when all of it is free.
  lemma BuddyListed(lists: seq<seq<nat>>, G: set<nat>, p: nat, k: nat)
    requires k < MAX_ORDER && Canonical(lists, G) && Aligned(p, k) && G !! Block(p, k)
    ensures BuddyOf(p, k) in lists[k] <==> BlockIn(G, BuddyOf(p, k), k)
  {
    ParentBlock(p, k);
    BuddyShift(p, k);
    InBlock(p, k);
    if BlockIn(G, BuddyOf(p, k), k) {
      assert Base(p, k) == p && p !in G;
      assert Base(p, k + 1) == Base(BuddyOf(p, k), k + 1);
      assert Maximal(G, BuddyOf(p, k), k);
    }
  }

  // With block (p, k) added, the parent is full exactly when the buddy was.
  lemma ParentFull(G: set<nat>, p: nat, k: nat)
    requires Aligned(p, k) && G !! Block(p, k)
    ensures BlockIn(G + Block(p, k), Base(p, k + 1), k + 1) <==> BlockIn(G, BuddyOf(p, k), k)
  {
    var b := BuddyOf(p, k);
    ParentBlock(p, k);
    InBlock(p, k);
    InBlock(b, k);
    forall x: nat ensures Base(x, k + 1) == Base(p, k + 1) <==> Base(x, k) == p || Base(x, k) == b {
      Halves(p, x, k);
    }
  }

  lemma {:induction false} FreeListsCanonical(lo: nat, hi: nat, lists: seq<seq<nat>>, G: set<nat>, p: nat, k: nat)
    requires k < MAX_ORDER && Canonical(lists, G)
    requires Aligned(p, k) && G !! Block(p, k)
    requires forall x :: x in G ==> lo <= x < hi
    ensures Canonical(FreeLists(lo, hi, lists, p, k), G + Block(p, k))
    decreases MAX_ORDER - k
  {
    var b := BuddyOf(p, k);
    ParentBlock(p, k);
    BuddyListed(lists, G, p, k);
    if k < MAX_ORDER - 1 && lo <= b < hi && b in lists[k] {
      RemoveMaximal(lists, G, b, k);
      var G' := G - Block(b, k);
      FreeListsCanonical(lo, hi, lists[k := Without<nat>(lists[k], b)], G', Lower(p, k), k + 1);
      assert G' + Block(Lower(p, k), k + 1) == G + Block(p, k);
    } else {
      InBlock(p, k);
      ParentFull(G, p, k);
      assert BlockIn(G, b, k) ==> b in G;
      AddMaximal(lists, G, p, k);
    }
  }

  /* Allocating */

  // The first order at or above k with a non-empty list.
  function Scan(lists: seq<seq<nat>>, k: nat): (c: nat)
    requires |lists| == MAX_ORDER && k <= MAX_ORDER
    ensures k <= c <= MAX_ORDER
    ensures forall j :: k <= j < c ==> lists[j] == []
    ensures c < MAX_ORDER ==> lists[c] != []
    decreases MAX_ORDER - k
  {
    if k < MAX_ORDER && lists[k] == [] then Scan(lists, k + 1) else k
  }

  // The lists after the block (p, c) has been halved down to order k, keeping p.
  function Split(lists: seq<seq<nat>>, p: nat, c: nat, k: nat): (r: seq<seq<nat>>)
    requires |lists| == MAX_ORDER && k <= c < MAX_ORDER
    ensures |r| == MAX_ORDER
    decreases c
  {
    if c == k then lists
    else Split(lists[c - 1 := lists[c - 1] + [BuddyOf(p, c - 1)]], p, c - 1, k)
  }

  // Halving the block (p, c + 1) and giving back the upper half.
  lemma SplitStep(lists: seq<seq<nat>>, F: set<nat>, p: nat, c: nat)
    requires c + 1 < MAX_ORDER && Aligned(p, c + 1) && Block(p, c + 1) <= F
    requires Canonical(lists, F - Block(p, c + 1))
    ensures Aligned(p, c) && Block(p, c) <= F
    ensures Canonical(lists[c := lists[c] + [BuddyOf(p, c)]], F - Block(p, c))
  {
    var b := BuddyOf(p, c);
    BaseNest(p, c, c + 1);
    BuddyShift(p, c);
    ParentBlock(p, c);
    var G := F - Block(p, c + 1);
    GiveBackHalf(F, Block(p, c), Block(b, c), Block(p, c + 1));
    UpperHalfMaximal(G, p, c);
    AddMaximal(lists, G, b, c);
  }

  lemma GiveBackHalf(F: set<nat>, low: set<nat>, high: set<nat>, whole: set<nat>)
    requires whole == low + high && low !! high && whole <= F
    ensures F - low == F - whole + high
  {
  }

  lemma UpperHalfMaximal(G: set<nat>, p: nat, c: nat)
    requires c + 1 < MAX_ORDER && Aligned(p, c + 1) && Aligned(p, c) && G !! Block(p, c + 1)
    ensures Aligned(BuddyOf(p, c), c) && G !! Block(BuddyOf(p, c), c)
    ensures Maximal(G + Block(BuddyOf(p, c), c), BuddyOf(p, c), c)
  {
    var b := BuddyOf(p, c);
    BuddyShift(p, c);
    ParentBlock(p, c);
    InBlock(b, c);
    assert p in Block(p, c + 1);
    assert Base(p, c + 1) == Base(b, c + 1);
    assert p !in G + Block(b, c);
  }

  lemma {:induction false} SplitCanonical(lists: seq<seq<nat>>, F: set<nat>, p: nat, c: nat, k: nat)
    requires k <= c < MAX_ORDER && Aligned(p, c) && Block(p, c) <= F
    requires Canonical(lists, F - Block(p, c))
    ensures Aligned(p, k) && Block(p, k) <= F
    ensures Canonical(Split(lists, p, c, k), F - Block(p, k))
    decreases c
  {
    if k < c {
      SplitStep(lists, F, p, c - 1);
      SplitCanonical(lists[c - 1 := lists[c - 1] + [BuddyOf(p, c - 1)]], F, p, c - 1, k);
    }
  }

  /* The zone */

  // The page x lies in a live block of order k.
  predicate LiveAt(live: map<nat, nat>, x: nat, k: nat) {
    Base(x, k) in live && live[Base(x, k)] == k
  }

  // Free pages and live blocks cover [lo, hi) exactly once, with aligned blocks.
  ghost predicate Partition(s: State) {
    && (forall p :: p in s.live ==> s.live[p] < MAX_ORDER && Aligned(p, s.live[p]))
    && (forall x :: x in s.free ==> s.lo <= x < s.hi)
    && (forall x: nat, k: nat :: LiveAt(s.live, x, k) ==> s.lo <= x < s.hi && x !in s.free)
    && (forall x: nat, j: nat, k: nat :: LiveAt(s.live, x, j) && LiveAt(s.live, x, k) ==> j == k)
    && (forall x: nat :: s.lo <= x < s.hi ==> x in s.free || exists k: nat :: LiveAt(s.live, x, k))
  }

  ghost predicate Inv(s: State) {
    s.lo <= s.hi && Canonical(s.lists, s.free) && Partition(s)
  }

  function Free(s: State, p: nat): (r: State)
    requires |s.lists| == MAX_ORDER && p in s.live && s.live[p] < MAX_ORDER
    ensures |r.lists| == MAX_ORDER
  {
    var k := s.live[p];
    s.(lists := FreeLists(s.lo, s.hi, s.lists, p, k), free := s.free + Block(p, k), live := s.live - {p})
  }

  function Alloc(s: State, k: nat): (r: (State, Option<nat>))
    requires |s.lists| == MAX_ORDER && k < MAX_ORDER
    ensures |r.0.lists| == MAX_ORDER
  {
    var c := Scan(s.lists, k);
    if c >= MAX_ORDER then (s, None)
    else
      var p := s.lists[c][0];
      var taken := s.lists[c := Without<nat>(s.lists[c], p)];
      (s.(lists := Split(taken, p, c, k), free := s.free - Block(p, k), live := s.live[p := k]), Some(p))
  }

  lemma LiveBlock(s: State, p: nat)
    requires Partition(s) && p in s.live
    ensures s.live[p] < MAX_ORDER && Aligned(p, s.live[p]) && s.free !! Block(p, s.live[p])
    ensures forall x: nat :: x in Block(p, s.live[p]) <==> Base(x, s.live[p]) == p
    ensures forall x: nat :: x in Block(p, s.live[p]) ==> LiveAt(s.live, x, s.live[p])
    ensures p in Block(p, s.live[p])
  {
    InBlock(p, s.live[p]);
    forall x: nat | x in Block(p, s.live[p]) ensures LiveAt(s.live, x, s.live[p]) {}
  }

  lemma LiveBlocksDisjoint(s: State, p: nat, q: nat)
    requires Partition(s) && p in s.live && q in s.live && p != q
    ensures Block(p, s.live[p]) !! Block(q, s.live[q])
  {
    LiveBlock(s, p);
    LiveBlock(s, q);
    var j, k := s.live[p], s.live[q];
    forall x: nat ensures x in Block(p, j) && x in Block(q, k) ==> p == q {
      assert LiveAt(s.live, x, j) && LiveAt(s.live, x, k) ==> j == k;
    }
  }

  lemma LiveWithout(s: State, p: nat, x: nat, j: nat)
    requires Partition(s) && p in s.live
    ensures LiveAt(s.live - {p}, x, j) <==> LiveAt(s.live, x, j) && x !in Block(p, s.live[p])
  {
    LiveBlock(s, p);
    var k := s.live[p];
    assert LiveAt(s.live - {p}, x, j) ==> LiveAt(s.live, x, j);
    assert x in Block(p, k) && LiveAt(s.live, x, j) ==> j == k && LiveAt(s.live, x, k);
    assert LiveAt(s.live, x, j) && Base(x, j) == p ==> j == k;
  }

  lemma FreePartition(s: State, p: nat, t: State)
    requires Partition(s) && p in s.live && t.lo == s.lo && t.hi == s.hi
    requires t.free == s.free + Block(p, s.live[p]) && t.live == s.live - {p}
    ensures Partition(t)
  {
    LiveBlock(s, p);
    forall x: nat, j: nat
      ensures LiveAt(t.live, x, j) <==> LiveAt(s.live, x, j) && x !in Block(p, s.live[p])
    {
      LiveWithout(s, p, x, j);
    }
  }

  lemma FreePreserves(s: State, p: nat)
    requires Inv(s) && p in s.live
    ensures s.live[p] < MAX_ORDER && Inv(Free(s, p))
    ensures s.free !! Block(p, s.live[p])
    ensures |Free(s, p).free| == |s.free| + Pow2(s.live[p])
  {
    LiveBlock(s, p);
    IntervalSize(p, Pow2(s.live[p]));
    FreePartition(s, p, Free(s, p));
    FreeListsCanonical(s.lo, s.hi, s.lists, s.free, p, s.live[p]);
  }

  lemma AllocPartition(s: State, p: nat, k: nat, t: State)
    requires Partition(s) && k < MAX_ORDER && Aligned(p, k) && Block(p, k) <= s.free
    requires t.lo == s.lo && t.hi == s.hi && t.free == s.free - Block(p, k) && t.live == s.live[p := k]
    ensures Partition(t) && p !in s.live
  {
    InBlock(p, k);
    assert p in Block(p, k);
    if p in s.live {
      LiveBlock(s, p);
    }
    forall x: nat, j: nat ensures LiveAt(t.live, x, j) <==> LiveAt(s.live, x, j) || (j == k && x in Block(p, k)) {}
    forall x: nat | s.lo <= x < s.hi ensures x in t.free || exists j: nat :: LiveAt(t.live, x, j) {
      if x in Block(p, k) {
        assert LiveAt(t.live, x, k);
      } else if x !in s.free {
        var j: nat :| LiveAt(s.live, x, j);
        assert LiveAt(t.live, x, j);
      }
    }
  }

  // What a successful allocation did: a free aligned block became live.
  ghost predicate Allocated(s: State, k: nat, p: nat, t: State) {
    && t.lo == s.lo && t.hi == s.hi
    && Aligned(p, k) && Block(p, k) <= s.free && p !in s.live
    && t.live == s.live[p := k] && t.free == s.free - Block(p, k)
    && |t.free| == |s.free| - Pow2(k)
  }

  lemma AllocPreserves(s: State, k: nat)
    requires Inv(s) && k < MAX_ORDER
    ensures Inv(Alloc(s, k).0)
    ensures match Alloc(s, k).1
      case None => Alloc(s, k).0 == s
      case Some(p) => Allocated(s, k, p, Alloc(s, k).0)
  {
    var (t, r) := Alloc(s, k);
    if r.Some? {
      var c := Scan(s.lists, k);
      var p := r.value;
      assert p in s.lists[c];
      RemoveMaximal(s.lists, s.free, p, c);
      SplitCanonical(s.lists[c := Without<nat>(s.lists[c], p)], s.free, p, c, k);
      AllocPartition(s, p, k, t);
      IntervalSize(p, Pow2(k));
      assert t.free + Block(p, k) == s.free;
    }
  }

  /* What the lists mean */

  // A free run of order k lies inside a maximal block of some order at or above k.
  lemma {:induction false} Climb(F: set<nat>, x: nat, k: nat) returns (c: nat)
    requires k < MAX_ORDER && BlockIn(F, Base(x, k), k)
    ensures k <= c < MAX_ORDER && Maximal(F, Base(x, c), c)
    decreases MAX_ORDER - k
  {
    BaseAligned(x, k);
    BaseNest(x, k, k + 1);
    if k + 1 < MAX_ORDER && BlockIn(F, Base(x, k + 1), k + 1) {
      c := Climb(F, x, k + 1);
    } else {
      c := k;
    }
  }

  lemma MaximalUnique(F: set<nat>, x: nat, j: nat, k: nat)
    requires j < MAX_ORDER && k < MAX_ORDER
    requires Maximal(F, Base(x, j), j) && Maximal(F, Base(x, k), k)
    ensures j >= k
  {
    if j < k {
      BaseNest(x, j, j + 1);
      Nested(Base(x, k), k, Base(x, j + 1), j + 1, x);
    }
  }

  // The page x lies in the block of order k on free list k, or in a live block of order k.
  predicate TileAt(s: State, x: nat, k: nat)
    requires |s.lists| == MAX_ORDER && k < MAX_ORDER
  {
    Base(x, k) in s.lists[k] || LiveAt(s.live, x, k)
  }

  // Every page of the zone lies in exactly one block, free or live, and no block
  // reaches outside the zone.
  lemma Tiling(s: State, x: nat)
    requires Inv(s)
    ensures (exists k :: 0 <= k < MAX_ORDER && TileAt(s, x, k)) <==> s.lo <= x < s.hi
    ensures forall j, k :: 0 <= j < MAX_ORDER && 0 <= k < MAX_ORDER && TileAt(s, x, j) && TileAt(s, x, k) ==> j == k
    ensures forall k :: 0 <= k < MAX_ORDER ==> !(Base(x, k) in s.lists[k] && LiveAt(s.live, x, k))
  {
    assert Base(x, 0) == x;
    if x in s.free {
      var c := Climb(s.free, x, 0);
      assert TileAt(s, x, c);
    } else if s.lo <= x < s.hi {
      var k: nat :| LiveAt(s.live, x, k);
      assert TileAt(s, x, k);
    }
    forall j, k | 0 <= j < MAX_ORDER && 0 <= k < MAX_ORDER && TileAt(s, x, j) && TileAt(s, x, k)
      ensures j == k
    {
      if Base(x, j) in s.lists[j] && Base(x, k) in s.lists[k] {
        MaximalUnique(s.free, x, j, k);
        MaximalUnique(s.free, x, k, j);
      }
    }
  }

  // Allocation looks only at list heads, yet it fails exactly when the zone holds
  // no aligned free run of 2^k pages, and otherwise splits a smallest maximal block.
  lemma AllocComplete(s: State, k: nat)
    requires Inv(s) && k < MAX_ORDER
    ensures Alloc(s, k).1.None? <==> !exists p: nat :: Aligned(p, k) && BlockIn(s.free, p, k)
    ensures Alloc(s, k).1.Some? ==>
              exists c :: k <= c < MAX_ORDER && Maximal(s.free, Alloc(s, k).1.value, c)
                          && forall j, q: nat :: k <= j < c ==> !Maximal(s.free, q, j)
  {
    var c := Scan(s.lists, k);
    if c < MAX_ORDER {
      var p := s.lists[c][0];
      assert p in s.lists[c] && Maximal(s.free, p, c);
      AllocPreserves(s, k);
      InBlock(p, k);
      assert BlockIn(s.free, p, k);
      forall j, q: nat | k <= j < c ensures !Maximal(s.free, q, j) { assert q !in s.lists[j]; }
    } else {
      forall p: nat | Aligned(p, k) ensures !BlockIn(s.free, p, k) {
        if BlockIn(s.free, p, k) {
          var d := Climb(s.free, p, k);
          assert false;
        }
      }
    }
  }

  // The live blocks determine the free pages, and with them the blocks on every list.
  ghost predicate SameBlocks(s: State, t: State)
    requires |s.lists| == MAX_ORDER && |t.lists| == MAX_ORDER
  {
    s.free == t.free && forall k :: 0 <= k < MAX_ORDER ==> Elements(s.lists[k]) == Elements(t.lists[k])
  }

  lemma FreePagesDecide(s: State, t: State)
    requires Inv(s) && Inv(t) && s.free == t.free
    ensures SameBlocks(s, t)
  {
    forall k | 0 <= k < MAX_ORDER ensures Elements(s.lists[k]) == Elements(t.lists[k]) {
      forall p: nat ensures p in s.lists[k] <==> p in t.lists[k] {}
    }
  }

  lemma LiveBlocksDecide(s: State, t: State)
    requires Inv(s) && Inv(t) && s.lo == t.lo && s.hi == t.hi && s.live == t.live
    ensures SameBlocks(s, t)
  {
    forall x: nat ensures x in s.free <==> x in t.free {
      if s.lo <= x < s.hi {
        assert x !in s.free <==> exists k: nat :: LiveAt(s.live, x, k);
        assert x !in t.free <==> exists k: nat :: LiveAt(t.live, x, k);
      }
    }
    assert s.free == t.free;
    FreePagesDecide(s, t);
  }

  lemma AllocThenFree(s: State, k: nat)
    requires Inv(s) && k < MAX_ORDER && Alloc(s, k).1.Some?
    ensures var (t, r) := Alloc(s, k);
            Inv(t) && r.value in t.live && Inv(Free(t, r.value))
            && SameBlocks(Free(t, r.value), s) && Free(t, r.value).live == s.live
  {
    var (t, r) := Alloc(s, k);
    AllocPreserves(s, k);
    FreePreserves(t, r.value);
    assert Free(t, r.value).live == s.live;
    LiveBlocksDecide(Free(t, r.value), s);
  }

  /* One round of the coalescing loop: the block being freed, seen as live, takes in
     its free buddy. The loop is a sequence of such rounds between valid states. */

  function Absorb(s: State, p: nat): (t: State)
    requires |s.lists| == MAX_ORDER && p in s.live && s.live[p] < MAX_ORDER
    ensures |t.lists| == MAX_ORDER
  {
    var k := s.live[p];
    var b := BuddyOf(p, k);
    s.(lists := s.lists[k := Without<nat>(s.lists[k], b)],
       free := s.free - Block(b, k),
       live := (s.live - {p})[Lower(p, k) := k + 1])
  }

  lemma AbsorbSets(F: set<nat>, own: set<nat>, buddy: set<nat>, whole: set<nat>)
    requires whole == own + buddy && buddy <= F && F !! own
    ensures F - buddy == F + own - whole && whole <= F + own
    ensures F - buddy + whole == F + own
  {
  }

  lemma UpdateThenDrop(m: map<nat, nat>, x: nat, v: nat)
    requires x !in m
    ensures m[x := v] - {x} == m
  {
  }

  lemma AbsorbPartition(s: State, p: nat, k: nat, b: nat, low: nat, t: State)
    requires Partition(s) && p in s.live && s.live[p] == k && k + 1 < MAX_ORDER
    requires b == BuddyOf(p, k) && low == Lower(p, k) && Block(b, k) <= s.free
    requires t.lo == s.lo && t.hi == s.hi && t.free == s.free - Block(b, k)
    requires t.live == (s.live - {p})[low := k + 1]
    ensures Partition(t) && t.live - {low} == s.live - {p}
    ensures t.free + Block(low, k + 1) == s.free + Block(p, k)
  {
    var own, buddy, whole := Block(p, k), Block(b, k), Block(low, k + 1);
    var freed := s.(free := s.free + own, live := s.live - {p});
    assert Aligned(p, k) && s.free !! own by { LiveBlock(s, p); }
    assert Aligned(low, k + 1) && whole == own + buddy by { ParentBlock(p, k); }
    AbsorbSets(s.free, own, buddy, whole);
    assert Partition(freed) by { FreePartition(s, p, freed); }
    assert Partition(t) && low !in freed.live by { AllocPartition(freed, low, k + 1, t); }
    UpdateThenDrop(freed.live, low, k + 1);
  }

  lemma AbsorbPreserves(s: State, p: nat)
    requires Inv(s) && p in s.live && s.live[p] < MAX_ORDER - 1
    requires BuddyOf(p, s.live[p]) in s.lists[s.live[p]]
    ensures Inv(Absorb(s, p)) && Free(Absorb(s, p), Lower(p, s.live[p])) == Free(s, p)
  {
    var k := s.live[p];
    var b := BuddyOf(p, k);
    RemoveMaximal(s.lists, s.free, b, k);
    AbsorbPartition(s, p, k, b, Lower(p, k), Absorb(s, p));
    assert s.lo <= b < s.hi by { assert b in Block(b, k); }
  }

  /* Runs */

  datatype Op = AllocOp(order: nat) | FreeOp(page: nat)

  predicate Legal(s: State, op: Op) {
    match op
    case AllocOp(k) => k < MAX_ORDER
    case FreeOp(p) => p in s.live && s.live[p] < MAX_ORDER
  }

  function Step(s: State, op: Op): (r: State)
    requires |s.lists| == MAX_ORDER && Legal(s, op)
    ensures |r.lists| == MAX_ORDER
  {
    match op
    case AllocOp(k) => Alloc(s, k).0
    case FreeOp(p) => Free(s, p)
  }

  predicate LegalRun(s: State, ops: seq<Op>)
    requires |s.lists| == MAX_ORDER
    decreases |ops|
  {
    ops == [] || (Legal(s, ops[0]) && LegalRun(Step(s, ops[0]), ops[1..]))
  }

  function Run(s: State, ops: seq<Op>): (r: State)
    requires |s.lists| == MAX_ORDER && LegalRun(s, ops)
    ensures |r.lists| == MAX_ORDER
    decreases |ops|
  {
    if ops == [] then s else Run(Step(s, ops[0]), ops[1..])
  }

  lemma {:induction false} RunPreserves(s: State, ops: seq<Op>)
    requires Inv(s) && LegalRun(s, ops)
    ensures Inv(Run(s, ops)) && Run(s, ops).lo == s.lo && Run(s, ops).hi == s.hi
    decreases |ops|
  {
    if ops != [] {
      match ops[0] {
        case AllocOp(k) => AllocPreserves(s, k);
        case FreeOp(p) => FreePreserves(s, p);
      }
      RunPreserves(Step(s, ops[0]), ops[1..]);
    }
  }

  // No free block below the top order has a free buddy of its own order.
  lemma NoFreeBuddies(s: State, p: nat, k: nat)
    requires Inv(s) && k < MAX_ORDER - 1 && p in s.lists[k]
    ensures BuddyOf(p, k) !in s.lists[k]
  {
    assert Maximal(s.free, p, k);
    BuddyShift(p, k);
    var x: nat :| Base(x, k + 1) == Base(p, k + 1) && x !in s.free;
    Halves(p, x, k);
  }

  // Whatever two runs did, if they end with the same free pages, or the same live
  // blocks, every free list holds the same blocks.
  lemma RunsAgree(s: State, ops1: seq<Op>, ops2: seq<Op>)
    requires Inv(s) && LegalRun(s, ops1) && LegalRun(s, ops2)
    requires Run(s, ops1).free == Run(s, ops2).free || Run(s, ops1).live == Run(s, ops2).live
    ensures SameBlocks(Run(s, ops1), Run(s, ops2))
  {
    RunPreserves(s, ops1);
    RunPreserves(s, ops2);
    if Run(s, ops1).free == Run(s, ops2).free {
      FreePagesDecide(Run(s, ops1), Run(s, ops2));
    } else {
      LiveBlocksDecide(Run(s, ops1), Run(s, ops2));
    }
  }

  /* Every free list is a queue: blocks join at the tail and leave from anywhere, but only
     the first block of a list is ever handed out or split. */

  // Coalescing does not touch a list below the order it starts from ...
  lemma {:induction false} FreeListsBelow(lo: nat, hi: nat, lists: seq<seq<nat>>, p: nat, k: nat, i: nat)
    requires |lists| == MAX_ORDER && i < k < MAX_ORDER
    ensures FreeLists(lo, hi, lists, p, k)[i] == lists[i]
    decreases MAX_ORDER - k
  {
    var b := BuddyOf(p, k);
    if k < MAX_ORDER - 1 && lo <= b < hi && b in lists[k] {
      FreeListsBelow(lo, hi, lists[k := Without<nat>(lists[k], b)], Lower(p, k), k + 1, i);
    }
  }

  // ... and takes a buddy off every other list, or adds the result at the tail, at most once.
  lemma {:induction false} FreeListsQueues(lo: nat, hi: nat, lists: seq<seq<nat>>, p: nat, k: nat, i: nat)
    requires |lists| == MAX_ORDER && k < MAX_ORDER && i < MAX_ORDER
    requires Distinct(FreeLists(lo, hi, lists, p, k)[i])
    ensures QueueStep(lists[i], FreeLists(lo, hi, lists, p, k)[i])
    decreases MAX_ORDER - k
  {
    var b := BuddyOf(p, k);
    if k < MAX_ORDER - 1 && lo <= b < hi && b in lists[k] {
      var shorter := lists[k := Without<nat>(lists[k], b)];
      if i == k {
        FreeListsBelow(lo, hi, shorter, Lower(p, k), k + 1, i);
      } else {
        FreeListsQueues(lo, hi, shorter, Lower(p, k), k + 1, i);
      }
    } else if i == k {
      TailIsNew(lists[k], p);
    }
  }

  lemma TailIsNew(l: seq<nat>, p: nat)
    requires Distinct(l + [p])
    ensures p !in l && QueueStep(l, l + [p])
  {
    forall j | 0 <= j < |l| ensures l[j] != p { assert (l + [p])[j] != (l + [p])[|l|]; }
  }

  lemma {:induction false} SplitAbove(lists: seq<seq<nat>>, p: nat, c: nat, k: nat, i: nat)
    requires |lists| == MAX_ORDER && k <= c < MAX_ORDER && c <= i < MAX_ORDER
    ensures Split(lists, p, c, k)[i] == lists[i]
    decreases c
  {
    if c > k { SplitAbove(lists[c - 1 := lists[c - 1] + [BuddyOf(p, c - 1)]], p, c - 1, k, i); }
  }

  lemma {:induction false} SplitQueues(lists: seq<seq<nat>>, p: nat, c: nat, k: nat, i: nat)
    requires |lists| == MAX_ORDER && k <= c < MAX_ORDER && i < MAX_ORDER
    requires Distinct(Split(lists, p, c, k)[i])
    ensures QueueStep(lists[i], Split(lists, p, c, k)[i])
    decreases c
  {
    if c > k {
      var longer := lists[c - 1 := lists[c - 1] + [BuddyOf(p, c - 1)]];
      if i == c - 1 {
        SplitAbove(longer, p, c - 1, k, i);
        TailIsNew(lists[i], BuddyOf(p, i));
      } else {
        SplitQueues(longer, p, c - 1, k, i);
      }
    }
  }

  // Every step of a run moves every list on as a queue.
  lemma StepQueues(s: State, op: Op, i: nat)
    requires Inv(s) && Legal(s, op) && i < MAX_ORDER
    ensures QueueStep(s.lists[i], Step(s, op).lists[i]) && Inv(Step(s, op))
  {
    match op {
      case FreeOp(p) =>
        FreePreserves(s, p);
        FreeListsQueues(s.lo, s.hi, s.lists, p, s.live[p], i);
      case AllocOp(k) =>
        AllocPreserves(s, k);
        var c := Scan(s.lists, k);
        if c < MAX_ORDER {
          var p := s.lists[c][0];
          var taken := s.lists[c := Without<nat>(s.lists[c], p)];
          if i >= c { SplitAbove(taken, p, c, k, i); } else { SplitQueues(taken, p, c, k, i); }
        }
    }
  }

  // The block p stays on list k all the time.
  ghost predicate Stays(s: State, ops: seq<Op>, k: nat, p: nat)
    requires |s.lists| == MAX_ORDER && k < MAX_ORDER && LegalRun(s, ops)
    decreases |ops|
  {
    p in s.lists[k] && (ops == [] || Stays(Step(s, ops[0]), ops[1..], k, p))
  }

  lemma {:induction false} OlderStaysAhead(s: State, ops: seq<Op>, k: nat, p: nat, q: nat)
    requires Inv(s) && LegalRun(s, ops) && k < MAX_ORDER && Stays(s, ops, k, p)
    requires p != q && Behind(s.lists[k], p, q)
    ensures p in Run(s, ops).lists[k] && Behind(Run(s, ops).lists[k], p, q)
    decreases |ops|
  {
    if ops != [] {
      var r := Step(s, ops[0]);
      StepQueues(s, ops[0], k);
      assert p in r.lists[k];
      StaysAhead(s.lists[k], r.lists[k], p, q);
      OlderStaysAhead(r, ops[1..], k, p, q);
    }
  }

  // First in, first out: while block p stays on its list, no block that was behind it, or
  // joins the list later, is handed out or split.
  lemma FirstInFirstOut(s: State, ops: seq<Op>, k: nat, p: nat, q: nat, j: nat)
    requires Inv(s) && LegalRun(s, ops) && k < MAX_ORDER && Stays(s, ops, k, p)
    requires p != q && (q !in s.lists[k] || Behind(s.lists[k], p, q))
    requires j < MAX_ORDER && q in Run(s, ops).lists[k]
    ensures Alloc(Run(s, ops), j).1 != Some(q)
  {
    var r := Run(s, ops);
    RunPreserves(s, ops);
    OlderStaysAhead(s, ops, k, p, q);
    var c := Scan(r.lists, j);
    if c < MAX_ORDER && r.lists[c][0] == q {
      assert q in r.lists[c];
      OneList(r, q, c, k);
    }
  }

  // A block is on one list only.
  lemma OneList(s: State, q: nat, j: nat, k: nat)
    requires Inv(s) && j < MAX_ORDER && k < MAX_ORDER && q in s.lists[j] && q in s.lists[k]
    ensures j == k
  {
    assert Base(q, j) == q && Base(q, k) == q;
    MaximalUnique(s.free, q, j, k);
    MaximalUnique(s.free, q, k, j);
  }

  function Frees(ps: seq<nat>): seq<Op> {
    if ps == [] then [] else [FreeOp(ps[0])] + Frees(ps[1..])
  }

  lemma RestIsLive(live: map<nat, nat>, ps: seq<nat>)
    requires ps != [] && Distinct(ps) && forall p :: p in ps ==> p in live
    ensures ps[0] in live && Distinct(ps[1..]) && forall p :: p in ps[1..] ==> p in live - {ps[0]}
    ensures live - {ps[0]} - Elements(ps[1..]) == live - Elements(ps)
  {
    assert Elements(ps) == {ps[0]} + Elements(ps[1..]);
  }

  lemma {:induction false} FreesLegal(s: State, ps: seq<nat>)
    requires Inv(s) && Distinct(ps) && forall p :: p in ps ==> p in s.live
    ensures LegalRun(s, Frees(ps)) && Run(s, Frees(ps)).live == s.live - Elements(ps)
    decreases |ps|
  {
    if ps == [] {
      assert s.live - Elements(ps) == s.live;
    } else {
      RestIsLive(s.live, ps);
      FreePreserves(s, ps[0]);
      FreesLegal(Free(s, ps[0]), ps[1..]);
      assert Frees(ps)[0] == FreeOp(ps[0]) && Frees(ps)[1..] == Frees(ps[1..]);
    }
  }

  // Freeing the same live blocks in any two orders gives the same free blocks.
  lemma FreeOrderIrrelevant(s: State, ps: seq<nat>, qs: seq<nat>)
    requires Inv(s) && Distinct(ps) && Distinct(qs) && Elements(ps) == Elements(qs)
    requires forall p :: p in ps ==> p in s.live
    ensures LegalRun(s, Frees(ps)) && LegalRun(s, Frees(qs))
    ensures SameBlocks(Run(s, Frees(ps)), Run(s, Frees(qs)))
  {
    forall q | q in qs ensures q in s.live { assert q in Elements(qs); }
    FreesLegal(s, ps);
    FreesLegal(s, qs);
    RunsAgree(s, Frees(ps), Frees(qs));
  }

  /* Initialisation: every page starts as a live block of order 0. */

  function Fresh(lo: nat, hi: nat): State
    requires lo <= hi
  {
    var pages := Interval(lo, hi - lo);
    State(lo, hi, seq(MAX_ORDER, _ => []), {}, map x | x in pages :: 0)
  }

  lemma FreshInv(lo: nat, hi: nat)
    requires lo <= hi
    ensures Inv(Fresh(lo, hi))
  {
    var s := Fresh(lo, hi);
    forall k, p: nat | 0 <= k < MAX_ORDER ensures !Maximal({}, p, k) {
      assert Base(p, k) == p ==> !BlockIn({}, p, k);
    }
    forall x: nat | lo <= x < hi ensures x in s.free || exists k: nat :: LiveAt(s.live, x, k) {
      assert LiveAt(s.live, x, 0);
    }
  }
}
