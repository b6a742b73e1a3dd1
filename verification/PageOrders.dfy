/**
 The order fields of the pages (kernel/page_alloc.c): what each operation writes,
 what every run keeps, and what the assertion of free_pages makes of it. Pages inside
 a block keep whatever order they had; nothing ever clears it.
 */
module PageOrders {
  import opened Bits
  import opened Seqs
  import opened Buddy

  // The order field of the first page of a live block: negative, one below -order.
  function LiveMark(k: int): int {
    -k - 1
  }

  // What the order field of a page says about the blocks, except at page p.
  ghost predicate OrdersAgree(s: State, order: seq<int>, p: int) {
    && s.hi <= |order|
    && (forall k, q: nat :: 0 <= k < |s.lists| && q in s.lists[k] ==> q < s.hi && order[q] == k)
    && (forall q: nat :: q in s.live && q != p ==> q < s.hi && order[q] == LiveMark(s.live[q]))
  }

  // The block around the buddy of a live block is not larger than that block, so
  // the buddy is the first page of its own block.
  lemma BuddyHeadsTile(s: State, p: nat) returns (k: nat)
    requires Inv(s) && p in s.live && s.live[p] < MAX_ORDER - 1
    requires s.lo <= BuddyOf(p, s.live[p]) < s.hi
    ensures k <= s.live[p] && TileAt(s, BuddyOf(p, s.live[p]), k)
    ensures Base(BuddyOf(p, s.live[p]), k) == BuddyOf(p, s.live[p])
  {
    var o := s.live[p];
    var b := BuddyOf(p, o);
    LiveBlock(s, p);
    BuddyShift(p, o);
    Tiling(s, b);
    var k' :| 0 <= k' < MAX_ORDER && TileAt(s, b, k');
    k := k';
    assert k <= o by {
      if k > o {
        BaseNest(b, o + 1, k);
        BaseNest(p, o + 1, k);
        Tiling(s, p);
        assert TileAt(s, p, k) && TileAt(s, p, o);
      }
    }
    BaseNest(b, k, o);
  }

  // Pages inside larger blocks keep stale orders, yet the test of the coalescing
  // loop holds exactly when the buddy heads a free block of that order.
  lemma StaleOrdersHarmless(s: State, order: seq<int>, p: nat)
    requires Inv(s) && p in s.live && s.live[p] < MAX_ORDER - 1 && OrdersAgree(s, order, p)
    requires s.lo <= BuddyOf(p, s.live[p]) < s.hi
    ensures order[BuddyOf(p, s.live[p])] == s.live[p] <==> BuddyOf(p, s.live[p]) in s.lists[s.live[p]]
  {
    var o := s.live[p];
    var b := BuddyOf(p, o);
    var k := BuddyHeadsTile(s, p);
    LiveBlock(s, p);
    BuddyShift(p, o);
    Tiling(s, b);
    assert b in s.lists[o] ==> TileAt(s, b, o);
  }

  // Pages that are not free are on no list.
  lemma LiveUnlisted(s: State, q: nat)
    requires Inv(s) && q !in s.free
    ensures forall k :: 0 <= k < MAX_ORDER ==> q !in s.lists[k]
  {
    forall k | 0 <= k < MAX_ORDER ensures q !in s.lists[k] {
      assert Base(q, k) == q ==> !BlockIn(s.free, q, k);
    }
  }

  lemma ListedFree(s: State, q: nat, k: nat)
    requires Inv(s) && k < MAX_ORDER && q in s.lists[k]
    ensures q in s.free && s.lo <= q < s.hi && Aligned(q, k)
  {
    assert Maximal(s.free, q, k);
    assert Base(q, k) == q;
  }

  /* The states an allocation passes through: s is the state before it, the block
     (p, c) is off the lists, and t.free is what the lists hold. */

  ghost predicate Splitting(s: State, t: State, p: nat, c: nat) {
    && Inv(s) && c < MAX_ORDER
    && t.lo == s.lo && t.hi == s.hi && t.live == s.live
    && t.free == s.free - Block(p, c) && Canonical(t.lists, t.free)
    && Aligned(p, c) && Block(p, c) <= s.free
  }

  ghost function Taken(s: State, p: nat, c: nat): State
    requires c < |s.lists|
  {
    s.(lists := s.lists[c := Without<nat>(s.lists[c], p)], free := s.free - Block(p, c))
  }

  ghost function Halved(s: State, t: State, p: nat, c: nat): State
    requires c < |t.lists|
  {
    t.(lists := t.lists[c := t.lists[c] + [BuddyOf(p, c)]], free := s.free - Block(p, c))
  }

  // The half given back by a split is free, not live, and on no list yet.
  lemma UpperHalf(s: State, t: State, p: nat, c: nat)
    requires Splitting(s, t, p, c + 1)
    ensures s.lo <= BuddyOf(p, c) < s.hi && BuddyOf(p, c) in s.free && BuddyOf(p, c) !in s.live
    ensures forall k :: 0 <= k < MAX_ORDER ==> BuddyOf(p, c) !in t.lists[k]
  {
    var b := BuddyOf(p, c);
    BaseNest(p, c, c + 1);
    BuddyShift(p, c);
    ParentBlock(p, c);
    assert b in Block(b, c) && b in Block(p, c + 1);
    if b in s.live { LiveBlock(s, b); }
    forall k | 0 <= k < MAX_ORDER ensures b !in t.lists[k] {
      assert Base(b, k) == b ==> !BlockIn(t.free, b, k);
    }
  }

  /* What the operations write. A page and its order field have the same index. */

  function Write(order: seq<int>, i: nat, v: int): (r: seq<int>)
    ensures |r| == |order|
  {
    if i < |order| then order[i := v] else order
  }

  // First page and order of the block that freeing (p, k) ends with.
  function Coalesced(lo: nat, hi: nat, lists: seq<seq<nat>>, p: nat, k: nat): (r: (nat, nat))
    requires |lists| == MAX_ORDER && k < MAX_ORDER
    ensures k <= r.1 < MAX_ORDER
    decreases MAX_ORDER - k
  {
    var b := BuddyOf(p, k);
    if k < MAX_ORDER - 1 && lo <= b < hi && b in lists[k]
    then Coalesced(lo, hi, lists[k := Without<nat>(lists[k], b)], Lower(p, k), k + 1)
    else (p, k)
  }

  // A free writes one order field: that of the first page of the coalesced block.
  function FreeOrder(s: State, order: seq<int>, p: nat): seq<int>
    requires |s.lists| == MAX_ORDER && p in s.live && s.live[p] < MAX_ORDER
  {
    var (h, j) := Coalesced(s.lo, s.hi, s.lists, p, s.live[p]);
    Write(order, h, j)
  }

  // A split writes the order of every upper half ...
  function SplitOrder(order: seq<int>, p: nat, c: nat, k: nat): seq<int>
    requires k <= c
    decreases c
  {
    if c == k then order else SplitOrder(Write(order, BuddyOf(p, c - 1), c - 1), p, c - 1, k)
  }

  // Halving the block (p, c) on down to order k leads to these lists and order fields.
  ghost predicate SplitsTo(lists: seq<seq<nat>>, order: seq<int>, p: nat, c: nat, k: nat, lists': seq<seq<nat>>, order': seq<int>) {
    && |lists| == MAX_ORDER && k <= c < MAX_ORDER
    && Split(lists, p, c, k) == lists' && SplitOrder(order, p, c, k) == order'
  }

  lemma SplitRound(lists: seq<seq<nat>>, order: seq<int>, p: nat, above: nat, c: nat, k: nat, lists': seq<seq<nat>>, order': seq<int>)
    requires k <= c && above == c + 1 && SplitsTo(lists, order, p, above, k, lists', order')
    ensures SplitsTo(lists[c := lists[c] + [BuddyOf(p, c)]], Write(order, BuddyOf(p, c), c), p, c, k, lists', order')
  {
  }

  // ... and an allocation in the end the mark of the live block.
  function AllocOrder(s: State, order: seq<int>, k: nat): seq<int>
    requires |s.lists| == MAX_ORDER && k < MAX_ORDER
  {
    match Alloc(s, k).1
    case None => order
    case Some(p) => Write(SplitOrder(order, p, Scan(s.lists, k), k), p, LiveMark(k))
  }

  lemma {:induction false} CoalescedListed(lo: nat, hi: nat, lists: seq<seq<nat>>, p: nat, k: nat)
    requires |lists| == MAX_ORDER && k < MAX_ORDER && Aligned(p, k)
    ensures var (h, j) := Coalesced(lo, hi, lists, p, k);
            h in FreeLists(lo, hi, lists, p, k)[j] && Base(p, j) == h
    decreases MAX_ORDER - k
  {
    var b := BuddyOf(p, k);
    if k < MAX_ORDER - 1 && lo <= b < hi && b in lists[k] {
      ParentBlock(p, k);
      CoalescedListed(lo, hi, lists[k := Without<nat>(lists[k], b)], Lower(p, k), k + 1);
      BaseNest(p, k + 1, Coalesced(lo, hi, lists, p, k).1);
    } else {
      BaseNest(p, k, k);
    }
  }

  // The coalesced block is the maximal block around p in the enlarged free set.
  lemma CoalescedMaximal(s: State, p: nat)
    requires Inv(s) && p in s.live && s.live[p] < MAX_ORDER
    ensures var (h, j) := Coalesced(s.lo, s.hi, s.lists, p, s.live[p]);
            Maximal(Free(s, p).free, h, j) && Base(p, j) == h && s.lo <= h < s.hi
            && h in Free(s, p).lists[j] && s.live[p] <= j
  {
    var (h, j) := Coalesced(s.lo, s.hi, s.lists, p, s.live[p]);
    assert Aligned(p, s.live[p]) by { LiveBlock(s, p); }
    CoalescedListed(s.lo, s.hi, s.lists, p, s.live[p]);
    FreePreserves(s, p);
    ListedFree(Free(s, p), h, j);
  }

  /* Order fields in step with the blocks */

  lemma AbsorbOrders(t: State, order: seq<int>, p: nat)
    requires Inv(t) && OrdersAgree(t, order, p)
    requires p in t.live && t.live[p] < MAX_ORDER - 1 && BuddyOf(p, t.live[p]) in t.lists[t.live[p]]
    ensures OrdersAgree(Absorb(t, p), order, Lower(p, t.live[p]))
  {
    WithoutElements(t.lists[t.live[p]], BuddyOf(p, t.live[p]));
  }

  lemma FreedOrders(t: State, order: seq<int>, p: nat)
    requires Inv(t) && OrdersAgree(t, order, p) && p in t.live && t.live[p] < MAX_ORDER
    requires Free(t, p).lists == t.lists[t.live[p] := t.lists[t.live[p]] + [p]]
    ensures t.lo <= p < t.hi && OrdersAgree(Free(t, p), order[p := t.live[p]], -1)
  {
    LiveBlock(t, p);
    assert LiveAt(t.live, p, t.live[p]);
    LiveUnlisted(t, p);
  }

  predicate Mergeable(s: State, p: nat)
    requires |s.lists| == MAX_ORDER && p in s.live && s.live[p] < MAX_ORDER
  {
    var k := s.live[p];
    k < MAX_ORDER - 1 && s.lo <= BuddyOf(p, k) < s.hi && BuddyOf(p, k) in s.lists[k]
  }

  // A round of the coalescing loop, and its end, for the order fields.
  lemma AbsorbRound(s: State, order: seq<int>, p: nat)
    requires Inv(s) && OrdersAgree(s, order, p) && p in s.live && s.live[p] < MAX_ORDER && Mergeable(s, p)
    ensures Inv(Absorb(s, p)) && OrdersAgree(Absorb(s, p), order, Lower(p, s.live[p]))
    ensures Free(Absorb(s, p), Lower(p, s.live[p])) == Free(s, p)
    ensures FreeOrder(Absorb(s, p), order, Lower(p, s.live[p])) == FreeOrder(s, order, p)
  {
    AbsorbPreserves(s, p);
    AbsorbOrders(s, order, p);
  }

  lemma LastRound(s: State, order: seq<int>, p: nat)
    requires Inv(s) && OrdersAgree(s, order, p) && p in s.live && s.live[p] < MAX_ORDER && !Mergeable(s, p)
    ensures OrdersAgree(Free(s, p), FreeOrder(s, order, p), -1)
  {
    FreedOrders(s, order, p);
  }

  lemma {:induction false} FreeOrdersAgree(s: State, order: seq<int>, p: nat)
    requires Inv(s) && OrdersAgree(s, order, p) && p in s.live && s.live[p] < MAX_ORDER
    ensures OrdersAgree(Free(s, p), FreeOrder(s, order, p), -1)
    decreases MAX_ORDER - (if p in s.live then s.live[p] else 0)
  {
    if Mergeable(s, p) {
      AbsorbRound(s, order, p);
      FreeOrdersAgree(Absorb(s, p), order, Lower(p, s.live[p]));
    } else {
      LastRound(s, order, p);
    }
  }

  lemma TakenSplitting(s: State, order: seq<int>, p: nat, c: nat)
    requires Inv(s) && OrdersAgree(s, order, -1) && c < MAX_ORDER && p in s.lists[c]
    ensures Splitting(s, Taken(s, p, c), p, c) && OrdersAgree(Taken(s, p, c), order, -1)
  {
    RemoveMaximal(s.lists, s.free, p, c);
    WithoutElements(s.lists[c], p);
  }

  lemma HalfSplitting(s: State, t: State, order: seq<int>, p: nat, c: nat)
    requires Splitting(s, t, p, c + 1) && OrdersAgree(t, order, -1)
    ensures Splitting(s, Halved(s, t, p, c), p, c) && s.lo <= BuddyOf(p, c) < s.hi
    ensures OrdersAgree(Halved(s, t, p, c), order[BuddyOf(p, c) := c], -1)
  {
    SplitStep(t.lists, s.free, p, c);
    UpperHalf(s, t, p, c);
  }

  lemma {:induction false} SplitOrdersAgree(s: State, t: State, order: seq<int>, p: nat, c: nat, k: nat) returns (u: State)
    requires Splitting(s, t, p, c) && OrdersAgree(t, order, -1) && k <= c
    ensures Splitting(s, u, p, k) && u.lists == Split(t.lists, p, c, k)
    ensures OrdersAgree(u, SplitOrder(order, p, c, k), -1)
    decreases c
  {
    if c == k {
      u := t;
    } else {
      HalfSplitting(s, t, order, p, c - 1);
      u := SplitOrdersAgree(s, Halved(s, t, p, c - 1), Write(order, BuddyOf(p, c - 1), c - 1), p, c - 1, k);
    }
  }

  lemma AllocatedOrders(s: State, t: State, order: seq<int>, p: nat, k: nat)
    requires Splitting(s, t, p, k) && OrdersAgree(t, order, -1)
    requires Alloc(s, k).1 == Some(p) && t.lists == Alloc(s, k).0.lists
    ensures s.lo <= p < s.hi && OrdersAgree(Alloc(s, k).0, order[p := LiveMark(k)], -1)
  {
    assert p in Block(p, k);
    forall j | 0 <= j < MAX_ORDER ensures p !in t.lists[j] {
      assert Base(p, j) == p ==> !BlockIn(t.free, p, j);
    }
  }

  lemma AllocOrdersAgree(s: State, order: seq<int>, k: nat)
    requires Inv(s) && OrdersAgree(s, order, -1) && k < MAX_ORDER
    ensures OrdersAgree(Alloc(s, k).0, AllocOrder(s, order, k), -1)
  {
    var c := Scan(s.lists, k);
    if c < MAX_ORDER {
      var p := s.lists[c][0];
      TakenSplitting(s, order, p, c);
      var u := SplitOrdersAgree(s, Taken(s, p, c), order, p, c, k);
      AllocatedOrders(s, u, SplitOrder(order, p, c, k), p, k);
    }
  }

  /* Runs of zone and order fields together */

  datatype Memory = Memory(zone: State, order: seq<int>)

  ghost predicate MemInv(m: Memory) {
    Inv(m.zone) && OrdersAgree(m.zone, m.order, -1)
  }

  function MemStep(m: Memory, op: Op): (r: Memory)
    requires |m.zone.lists| == MAX_ORDER && Legal(m.zone, op)
    ensures r.zone == Step(m.zone, op)
  {
    match op
    case AllocOp(k) => Memory(Step(m.zone, op), AllocOrder(m.zone, m.order, k))
    case FreeOp(p) => Memory(Step(m.zone, op), FreeOrder(m.zone, m.order, p))
  }

  function MemRun(m: Memory, ops: seq<Op>): (r: Memory)
    requires |m.zone.lists| == MAX_ORDER && LegalRun(m.zone, ops)
    ensures r.zone == Run(m.zone, ops)
    decreases |ops|
  {
    if ops == [] then m else MemRun(MemStep(m, ops[0]), ops[1..])
  }

  // Before the first free: every page of the zone carries the mark of a live page.
  function Born(order: seq<int>, lo: nat, hi: nat): (m: Memory)
    requires lo <= hi
    ensures |m.order| == |order|
    ensures forall q :: 0 <= q < |order| ==> m.order[q] == if lo <= q < hi then LiveMark(0) else order[q]
  {
    Memory(Fresh(lo, hi), seq(|order|, i requires 0 <= i < |order| => if lo <= i < hi then LiveMark(0) else order[i]))
  }

  lemma BornInv(order: seq<int>, lo: nat, hi: nat)
    requires lo <= hi <= |order|
    ensures MemInv(Born(order, lo, hi))
  {
    FreshInv(lo, hi);
  }

  lemma MemStepPreserves(m: Memory, op: Op)
    requires MemInv(m) && Legal(m.zone, op)
    ensures MemInv(MemStep(m, op))
  {
    match op {
      case AllocOp(k) =>
        AllocPreserves(m.zone, k);
        AllocOrdersAgree(m.zone, m.order, k);
      case FreeOp(p) =>
        FreePreserves(m.zone, p);
        FreeOrdersAgree(m.zone, m.order, p);
    }
  }

  // After any run the order fields of the first pages tell every block.
  lemma {:induction false} MemRunPreserves(m: Memory, ops: seq<Op>)
    requires MemInv(m) && LegalRun(m.zone, ops)
    ensures MemInv(MemRun(m, ops))
    decreases |ops|
  {
    if ops != [] {
      MemStepPreserves(m, ops[0]);
      MemRunPreserves(MemStep(m, ops[0]), ops[1..]);
    }
  }

  // Only order fields of pages in [lo, hi) differ.
  ghost predicate OrdersKept(before: seq<int>, after: seq<int>, lo: nat, hi: nat) {
    |after| == |before| && forall q :: 0 <= q < |before| && !(lo <= q < hi) ==> after[q] == before[q]
  }

  lemma {:induction false} SplitInside(s: State, t: State, order: seq<int>, p: nat, c: nat, k: nat)
    requires Splitting(s, t, p, c) && OrdersAgree(t, order, -1) && k <= c
    ensures OrdersKept(order, SplitOrder(order, p, c, k), s.lo, s.hi)
    decreases c
  {
    if c > k {
      HalfSplitting(s, t, order, p, c - 1);
      SplitInside(s, Halved(s, t, p, c - 1), Write(order, BuddyOf(p, c - 1), c - 1), p, c - 1, k);
    }
  }

  // No operation writes an order field outside its zone.
  lemma StepInside(m: Memory, op: Op)
    requires MemInv(m) && Legal(m.zone, op)
    ensures OrdersKept(m.order, MemStep(m, op).order, m.zone.lo, m.zone.hi)
  {
    match op {
      case FreeOp(p) => CoalescedMaximal(m.zone, p);
      case AllocOp(k) =>
        var c := Scan(m.zone.lists, k);
        if c < MAX_ORDER {
          var p := m.zone.lists[c][0];
          TakenSplitting(m.zone, m.order, p, c);
          SplitInside(m.zone, Taken(m.zone, p, c), m.order, p, c, k);
          ListedFree(m.zone, p, c);
        }
    }
  }

  /* Initialisation: every page is born live, then the accepted ones are freed in turn. */

  // What init_zone does when it comes to page pfn.
  function FreeAccepted(m: Memory, isFree: nat -> bool, pfn: nat): Memory {
    if |m.zone.lists| == MAX_ORDER && isFree(pfn) && Legal(m.zone, FreeOp(pfn)) then MemStep(m, FreeOp(pfn)) else m
  }

  function Freeing(isFree: nat -> bool): (Memory, nat) -> Memory {
    (m: Memory, pfn: nat) => FreeAccepted(m, isFree, pfn)
  }

  // A loop over the pages of [lo, n).
  function Loop(body: (Memory, nat) -> Memory, m: Memory, lo: nat, n: nat): Memory
    requires lo <= n
    decreases n
  {
    if n == lo then m else body(Loop(body, m, lo, n - 1), n - 1)
  }

  lemma LoopNext(body: (Memory, nat) -> Memory, m: Memory, lo: nat, n: nat)
    requires lo <= n
    ensures Loop(body, m, lo, n + 1) == body(Loop(body, m, lo, n), n)
  {
  }

  lemma {:induction false} LoopKeeps(body: (Memory, nat) -> Memory, inv: (Memory, nat) -> bool, m: Memory, lo: nat, hi: nat, n: nat)
    requires lo <= n <= hi && inv(m, lo)
    requires forall x: Memory, q: nat :: lo <= q < hi && inv(x, q) ==> inv(body(x, q), q + 1)
    ensures inv(Loop(body, m, lo, n), n)
    decreases n
  {
    if n > lo { LoopKeeps(body, inv, m, lo, hi, n - 1); }
  }

  function Initialised(order: seq<int>, lo: nat, hi: nat, isFree: nat -> bool): Memory
    requires lo <= hi
  {
    Loop(Freeing(isFree), Born(order, lo, hi), lo, hi)
  }

  // The pages below `limit` that isFree accepts are free; all others are live blocks of order 0.
  ghost predicate FreedUpTo(s: State, isFree: nat -> bool, limit: nat) {
    && (forall x :: x in s.free <==> s.lo <= x < limit && isFree(x))
    && (forall x :: x in s.live <==> s.lo <= x < s.hi && !(x < limit && isFree(x)))
    && (forall x :: x in s.live ==> s.live[x] == 0)
  }

  lemma FreedStep(s: State, isFree: nat -> bool, pfn: nat)
    requires Inv(s) && FreedUpTo(s, isFree, pfn) && s.lo <= pfn < s.hi && isFree(pfn)
    ensures pfn in s.live && s.live[pfn] == 0 && FreedUpTo(Free(s, pfn), isFree, pfn + 1)
  {
    forall x: nat ensures x in Block(pfn, 0) <==> x == pfn {}
  }

  // The zone [lo, hi) in which the pages below pfn have been considered.
  ghost predicate Considered(m: Memory, lo: nat, hi: nat, isFree: nat -> bool, pfn: nat) {
    MemInv(m) && m.zone.lo == lo && m.zone.hi == hi && FreedUpTo(m.zone, isFree, pfn)
  }

  lemma ConsideredStart(m: Memory, lo: nat, hi: nat, isFree: nat -> bool)
    requires lo <= hi && MemInv(m) && m.zone == Fresh(lo, hi)
    ensures Considered(m, lo, hi, isFree, lo)
  {
  }

  lemma ConsideredStep(m: Memory, lo: nat, hi: nat, isFree: nat -> bool, pfn: nat)
    requires lo <= pfn < hi && Considered(m, lo, hi, isFree, pfn)
    ensures Ready(m, isFree, pfn)
    ensures Considered(FreeAccepted(m, isFree, pfn), lo, hi, isFree, pfn + 1)
    ensures OrdersKept(m.order, FreeAccepted(m, isFree, pfn).order, lo, hi)
  {
    if isFree(pfn) {
      FreedStep(m.zone, isFree, pfn);
      MemStepPreserves(m, FreeOp(pfn));
      StepInside(m, FreeOp(pfn));
    }
  }

  ghost predicate Reached(before: seq<int>, m: Memory, lo: nat, hi: nat, isFree: nat -> bool, pfn: nat) {
    Considered(m, lo, hi, isFree, pfn) && OrdersKept(before, m.order, lo, hi)
  }

  lemma ReachedStep(before: seq<int>, m: Memory, lo: nat, hi: nat, isFree: nat -> bool, pfn: nat)
    requires lo <= pfn < hi && Reached(before, m, lo, hi, isFree, pfn)
    ensures Reached(before, FreeAccepted(m, isFree, pfn), lo, hi, isFree, pfn + 1) && Ready(m, isFree, pfn)
  {
    ConsideredStep(m, lo, hi, isFree, pfn);
  }

  // inv holds before every round of init_zone's second loop, and lets it free the page.
  ghost predicate Sustains(inv: (Memory, nat) -> bool, isFree: nat -> bool, lo: nat, hi: nat) {
    forall x: Memory, q: nat :: lo <= q < hi && inv(x, q) ==>
      inv(Freeing(isFree)(x, q), q + 1) && Ready(x, isFree, q)
  }

  // An accepted page is still live, as a block of order 0, when its turn comes.
  predicate Ready(m: Memory, isFree: nat -> bool, pfn: nat) {
    isFree(pfn) ==> |m.zone.lists| == MAX_ORDER && pfn in m.zone.live && m.zone.live[pfn] == 0
  }

  ghost predicate LoopAt(x: Memory, m: Memory, lo: nat, isFree: nat -> bool, q: nat) {
    q >= lo && x == Loop(Freeing(isFree), m, lo, q)
  }

  lemma LoopAtNext(x: Memory, m: Memory, lo: nat, isFree: nat -> bool, q: nat)
    requires LoopAt(x, m, lo, isFree, q)
    ensures LoopAt(Freeing(isFree)(x, q), m, lo, isFree, q + 1)
  {
    LoopNext(Freeing(isFree), m, lo, q);
  }

  ghost function Reaches(m: Memory, lo: nat, hi: nat, isFree: nat -> bool): (Memory, nat) -> bool {
    (x: Memory, q: nat) => Reached(m.order, x, lo, hi, isFree, q) && LoopAt(x, m, lo, isFree, q)
  }

  lemma ReachesSustains(m: Memory, lo: nat, hi: nat, isFree: nat -> bool)
    ensures Sustains(Reaches(m, lo, hi, isFree), isFree, lo, hi)
  {
    forall x: Memory, q: nat | lo <= q < hi && Reached(m.order, x, lo, hi, isFree, q) && LoopAt(x, m, lo, isFree, q)
      ensures Reached(m.order, Freeing(isFree)(x, q), lo, hi, isFree, q + 1)
      ensures LoopAt(Freeing(isFree)(x, q), m, lo, isFree, q + 1) && Ready(x, isFree, q)
    {
      ReachedStep(m.order, x, lo, hi, isFree, q);
      LoopAtNext(x, m, lo, isFree, q);
    }
  }

  lemma LoopReaches(m: Memory, lo: nat, hi: nat, isFree: nat -> bool)
    requires lo <= hi && Considered(m, lo, hi, isFree, lo)
    ensures Reached(m.order, Loop(Freeing(isFree), m, lo, hi), lo, hi, isFree, hi)
  {
    var inv := Reaches(m, lo, hi, isFree);
    ReachesSustains(m, lo, hi, isFree);
    assert inv(m, lo);
    LoopKeeps(Freeing(isFree), inv, m, lo, hi, hi);
  }

  // Initialisation frees exactly the accepted pages and writes no order outside the zone.
  lemma InitialisedMeaning(order: seq<int>, lo: nat, hi: nat, isFree: nat -> bool)
    requires lo <= hi <= |order|
    ensures Considered(Initialised(order, lo, hi, isFree), lo, hi, isFree, hi)
    ensures OrdersKept(order, Initialised(order, lo, hi, isFree).order, lo, hi)
  {
    BornInv(order, lo, hi);
    ConsideredStart(Born(order, lo, hi), lo, hi, isFree);
    LoopReaches(Born(order, lo, hi), lo, hi, isFree);
  }

  // Every page of the block is a page of the zone that isFree accepts.
  ghost predicate AcceptedBlock(lo: nat, hi: nat, isFree: nat -> bool, p: nat, k: nat) {
    forall x: nat :: Base(x, k) == p ==> lo <= x < hi && isFree(x)
  }

  // What initialisation leaves on free list k: the maximal aligned blocks of accepted pages.
  lemma InitialBlocks(order: seq<int>, lo: nat, hi: nat, isFree: nat -> bool, p: nat, k: nat)
    requires lo <= hi <= |order| && k < MAX_ORDER
    ensures |Initialised(order, lo, hi, isFree).zone.lists| == MAX_ORDER
    ensures p in Initialised(order, lo, hi, isFree).zone.lists[k] <==>
              Aligned(p, k) && AcceptedBlock(lo, hi, isFree, p, k)
              && (k + 1 < MAX_ORDER ==> !AcceptedBlock(lo, hi, isFree, Base(p, k + 1), k + 1))
  {
    InitialisedMeaning(order, lo, hi, isFree);
    var s := Initialised(order, lo, hi, isFree).zone;
    forall q: nat, j: nat ensures BlockIn(s.free, q, j) <==> AcceptedBlock(lo, hi, isFree, q, j) {}
    assert p in s.lists[k] <==> Maximal(s.free, p, k);
  }

  /* What is not written */

  lemma {:induction false} SplitWrites(lists: seq<seq<nat>>, order: seq<int>, p: nat, c: nat, k: nat, q: nat)
    requires |lists| == MAX_ORDER && k <= c < MAX_ORDER && q < |order|
    ensures |SplitOrder(order, p, c, k)| == |order|
    ensures SplitOrder(order, p, c, k)[q] == order[q]
            || exists i :: 0 <= i < MAX_ORDER && q in Split(lists, p, c, k)[i]
    decreases c
  {
    if c > k {
      var b := BuddyOf(p, c - 1);
      var longer := lists[c - 1 := lists[c - 1] + [b]];
      SplitWrites(longer, Write(order, b, c - 1), p, c - 1, k, q);
      if q == b {
        SplitAbove(longer, p, c - 1, k, c - 1);
        assert longer[c - 1][|lists[c - 1]|] == q;
        assert q in Split(lists, p, c, k)[c - 1];
      }
    }
  }

  // A step writes the order fields of pages that head a block afterwards, and no other:
  // with what MemRunPreserves says of the heads, that is the whole array.
  lemma StepWritesHeads(m: Memory, op: Op, q: nat)
    requires MemInv(m) && Legal(m.zone, op) && q < |m.order|
    ensures |MemStep(m, op).order| == |m.order| && |MemStep(m, op).zone.lists| == MAX_ORDER
    ensures !HeadsBlock(MemStep(m, op).zone, q) ==> MemStep(m, op).order[q] == m.order[q]
  {
    match op {
      case FreeOp(p) => CoalescedMaximal(m.zone, p);
      case AllocOp(k) =>
        var c := Scan(m.zone.lists, k);
        if c < MAX_ORDER {
          var p := m.zone.lists[c][0];
          SplitWrites(m.zone.lists[c := Without<nat>(m.zone.lists[c], p)], m.order, p, c, k, q);
        }
    }
  }

  /* The assertion of free_pages */

  predicate Accepted(order: seq<int>, p: nat, k: nat) {
    p < |order| && order[p] < 0 && -order[p] - 1 == k
  }

  ghost predicate HeadsBlock(s: State, p: nat)
    requires |s.lists| == MAX_ORDER
  {
    p in s.live || exists k :: 0 <= k < MAX_ORDER && p in s.lists[k]
  }

  // For a page of the zone the assertion accepts exactly the live blocks if and only if
  // the page heads a block or its order field is not negative.
  lemma AssertionExactIff(m: Memory, p: nat)
    requires MemInv(m) && m.zone.lo <= p < m.zone.hi
    ensures p < |m.order|
    ensures (forall k: nat :: Accepted(m.order, p, k) <==> p in m.zone.live && m.zone.live[p] == k)
            <==> HeadsBlock(m.zone, p) || m.order[p] >= 0
  {
    var s := m.zone;
    if p in s.live {
      assert m.order[p] == LiveMark(s.live[p]);
    } else if m.order[p] < 0 {
      assert Accepted(m.order, p, -m.order[p] - 1);
      assert !HeadsBlock(s, p);
    }
  }

  // Freeing a live block twice: the second call passes the assertion exactly when the
  // first one merged the block into one that starts at another page.
  lemma SecondFreeAccepted(m: Memory, p: nat)
    requires MemInv(m) && p in m.zone.live
    ensures m.zone.live[p] < MAX_ORDER
    ensures var k := m.zone.live[p]; var n := MemStep(m, FreeOp(p));
            p !in n.zone.live
            && (Accepted(n.order, p, k) <==> Coalesced(m.zone.lo, m.zone.hi, m.zone.lists, p, k).0 != p)
  {
  }

  // It does happen: after a zone of two pages is initialised with both accepted, page 1
  // lies inside a free block of order 1 and still carries the mark it was born with.
  lemma AssertionAcceptsAbsorbed(a: int, b: int, isFree: nat -> bool)
    requires isFree(0) && isFree(1)
    ensures var m := Initialised([a, b], 0, 2, isFree);
            m.order == [1, -1] && 1 in m.zone.free && Accepted(m.order, 1, 0)
  {
    var m := Born([a, b], 0, 2);
    assert m.order[0] == -1 && m.order[1] == -1;
    assert m.order == [-1, -1];
    FirstFree(m.zone);
    var n := MemStep(m, FreeOp(0));
    assert n.order == [0, -1];
    SecondFree(n.zone);
    assert MemStep(n, FreeOp(1)).order == [1, -1];
    BothFreed([a, b], isFree);
  }

  lemma BothFreed(order: seq<int>, isFree: nat -> bool)
    requires |order| == 2 && isFree(0) && isFree(1)
    ensures 0 in Fresh(0, 2).live && Fresh(0, 2).live[0] == 0
    ensures var n := MemStep(Born(order, 0, 2), FreeOp(0));
            1 in n.zone.live && n.zone.live[1] == 0
            && Initialised(order, 0, 2, isFree) == MemStep(n, FreeOp(1)) && 1 in MemStep(n, FreeOp(1)).zone.free
  {
    var m := Born(order, 0, 2);
    BornInv(order, 0, 2);
    ConsideredStart(m, 0, 2, isFree);
    ConsideredStep(m, 0, 2, isFree, 0);
    ConsideredStep(FreeAccepted(m, isFree, 0), 0, 2, isFree, 1);
    var f := Freeing(isFree);
    assert Loop(f, m, 0, 1) == f(Loop(f, m, 0, 0), 0) == FreeAccepted(m, isFree, 0);
    assert Loop(f, m, 0, 2) == f(Loop(f, m, 0, 1), 1);
  }

  lemma FirstFree(f: State)
    requires f == Fresh(0, 2)
    ensures 0 in f.live && f.live[0] == 0 && 1 in f.live && f.live[1] == 0
    ensures Coalesced(0, 2, f.lists, 0, 0) == (0, 0) && Free(f, 0).lists == f.lists[0 := [0]]
  {
    BuddyShift(0, 0);
    assert f.lists[0] + [0] == [0];
  }

  lemma SecondFree(g: State)
    requires g.lo == 0 && g.hi == 2 && |g.lists| == MAX_ORDER && g.lists[0] == [0]
    ensures Coalesced(0, 2, g.lists, 1, 0) == (0, 1)
  {
    BuddyShift(1, 0);
    BuddyShift(0, 1);
    assert BuddyOf(1, 0) == 0 && BuddyOf(0, 1) == 2;
    assert Coalesced(0, 2, g.lists, 1, 0) == Coalesced(0, 2, g.lists[0 := Without<nat>([0], 0)], 0, 1);
  }
}
