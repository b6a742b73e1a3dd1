/**
 The page allocator as the code runs it: an order field per page, and the free
 lists threaded through the chain fields of the pages (kernel/page_alloc.c and
 init_zone in kernel/arch/x86/setup_page_alloc.c). Each method is proved to act
 as the function of module Buddy on the ghost state.

 A page is named by its frame number. The pool `chains` holds the chain field of
 page p at node p and the list head free_area[k] at node Slot(area, k).
 */
module PageAlloc {
  import opened Bits
  import opened Seqs
  import opened Lists
  import opened Buddy
  import opened PageOrders

  // The node of the list head free_area[k].
  function Slot(area: nat, k: nat): nat {
    area + k
  }

  // The pool holds the free lists; pages of [lo, hi) are on no other list.
  ghost predicate ListsAgree(lists: map<nat, seq<nat>>, area: nat, free: seq<seq<nat>>, lo: nat, hi: nat) {
    && |free| == MAX_ORDER
    && (forall k :: 0 <= k < MAX_ORDER ==> Slot(area, k) in lists && lists[Slot(area, k)] == free[k])
    && (forall h, q :: h in lists && q in lists[h] && lo <= q < hi ==> area <= h < area + MAX_ORDER)
    && (forall q :: q in lists && lo <= q < hi ==> lists[q] == [])
  }

  lemma AppendAgrees(lists: map<nat, seq<nat>>, area: nat, free: seq<seq<nat>>, lo: nat, hi: nat, x: nat, k: nat)
    requires ListsAgree(lists, area, free, lo, hi) && k < MAX_ORDER && lo <= x < hi <= area
    ensures Slot(area, k) in lists
    ensures ListsAgree((lists - {x})[Slot(area, k) := lists[Slot(area, k)] + [x]], area,
                       free[k := free[k] + [x]], lo, hi)
  {
    assert Slot(area, k) in lists && lists[Slot(area, k)] == free[k];
    var lists' := (lists - {x})[Slot(area, k) := lists[Slot(area, k)] + [x]];
    forall h, q | h in lists' && q in lists'[h] && lo <= q < hi ensures area <= h < area + MAX_ORDER {
      if h != Slot(area, k) { assert h in lists && q in lists[h]; }
    }
    forall q | q in lists' && lo <= q < hi ensures lists'[q] == [] {
      assert q in lists;
    }
  }

  lemma RemoveAgrees(lists: map<nat, seq<nat>>, area: nat, free: seq<seq<nat>>, lo: nat, hi: nat, x: nat, k: nat)
    requires ListsAgree(lists, area, free, lo, hi) && k < MAX_ORDER && Distinct(free[k]) && hi <= area
    ensures ListsAgree(lists[Slot(area, k) := Without(lists[Slot(area, k)], x)], area,
                       free[k := Without<nat>(free[k], x)], lo, hi)
  {
    WithoutElements(free[k], x);
  }

  // No list outside the zone's own heads has changed; chains of its pages aside.
  ghost predicate OthersKept(before: map<nat, seq<nat>>, after: map<nat, seq<nat>>, area: nat, lo: nat, hi: nat) {
    forall h :: !(area <= h < area + MAX_ORDER) && !(lo <= h < hi) ==>
      (h in before <==> h in after) && (h in before ==> before[h] == after[h])
  }

  lemma Unlisted(lists: map<nat, seq<nat>>, area: nat, free: seq<seq<nat>>, lo: nat, hi: nat, q: nat)
    requires ListsAgree(lists, area, free, lo, hi) && lo <= q < hi
    requires forall k :: 0 <= k < MAX_ORDER ==> q !in free[k]
    ensures Detached(lists, q)
  {
    forall h | h in lists ensures q !in lists[h] {
      if area <= h < area + MAX_ORDER {
        assert h == Slot(area, h - area);
      }
    }
  }

  // Unlinking the buddy keeps lists and orders in step with the coalescing round.
  lemma AbsorbAgrees(lists: map<nat, seq<nat>>, area: nat, t: State, order: seq<int>, p: nat)
    requires Inv(t) && ListsAgree(lists, area, t.lists, t.lo, t.hi) && OrdersAgree(t, order, p) && t.hi <= area
    requires p in t.live && t.live[p] < MAX_ORDER - 1 && BuddyOf(p, t.live[p]) in t.lists[t.live[p]]
    ensures var o := t.live[p]; var b := BuddyOf(p, o);
            ListsAgree(lists[Slot(area, o) := Without(lists[Slot(area, o)], b)], area, Absorb(t, p).lists, t.lo, t.hi)
            && OrdersAgree(Absorb(t, p), order, Lower(p, o))
  {
    var o := t.live[p];
    AbsorbOrders(t, order, p);
    RemoveAgrees(lists, area, t.lists, t.lo, t.hi, BuddyOf(p, o), o);
  }

  lemma FreedAgrees(lists: map<nat, seq<nat>>, area: nat, t: State, order: seq<int>, p: nat)
    requires Inv(t) && ListsAgree(lists, area, t.lists, t.lo, t.hi) && OrdersAgree(t, order, p) && t.hi <= area
    requires p in t.live && t.live[p] < MAX_ORDER
    requires Free(t, p).lists == t.lists[t.live[p] := t.lists[t.live[p]] + [p]]
    ensures t.lo <= p < t.hi && Detached(lists, p)
    ensures ListsAgree((lists - {p})[Slot(area, t.live[p]) := lists[Slot(area, t.live[p])] + [p]], area,
                       Free(t, p).lists, t.lo, t.hi)
    ensures OrdersAgree(Free(t, p), order[p := t.live[p]], -1)
  {
    LiveBlock(t, p);
    FreedOrders(t, order, p);
    LiveUnlisted(t, p);
    Unlisted(lists, area, t.lists, t.lo, t.hi, p);
    AppendAgrees(lists, area, t.lists, t.lo, t.hi, p, t.live[p]);
  }

  lemma TakenAgrees(lists: map<nat, seq<nat>>, area: nat, s: State, order: seq<int>, p: nat, c: nat)
    requires Inv(s) && ListsAgree(lists, area, s.lists, s.lo, s.hi) && OrdersAgree(s, order, -1) && s.hi <= area
    requires c < MAX_ORDER && p in s.lists[c]
    ensures Splitting(s, Taken(s, p, c), p, c)
    ensures ListsAgree(lists[Slot(area, c) := Without(lists[Slot(area, c)], p)], area, Taken(s, p, c).lists, s.lo, s.hi)
    ensures OrdersAgree(Taken(s, p, c), order, -1)
  {
    TakenSplitting(s, order, p, c);
    RemoveAgrees(lists, area, s.lists, s.lo, s.hi, p, c);
  }

  lemma HalfAgrees(lists: map<nat, seq<nat>>, area: nat, s: State, t: State, order: seq<int>, p: nat, c: nat)
    requires Splitting(s, t, p, c + 1) && t.hi <= area
    requires ListsAgree(lists, area, t.lists, t.lo, t.hi) && OrdersAgree(t, order, -1)
    ensures Splitting(s, Halved(s, t, p, c), p, c)
    ensures s.lo <= BuddyOf(p, c) < s.hi && Detached(lists, BuddyOf(p, c))
    ensures ListsAgree((lists - {BuddyOf(p, c)})[Slot(area, c) := lists[Slot(area, c)] + [BuddyOf(p, c)]], area,
                       Halved(s, t, p, c).lists, t.lo, t.hi)
    ensures OrdersAgree(Halved(s, t, p, c), order[BuddyOf(p, c) := c], -1)
  {
    HalfSplitting(s, t, order, p, c);
    UpperHalf(s, t, p, c);
    Unlisted(lists, area, t.lists, t.lo, t.hi, BuddyOf(p, c));
    AppendAgrees(lists, area, t.lists, t.lo, t.hi, BuddyOf(p, c), c);
  }

  lemma AllocatedAgrees(s: State, t: State, order: seq<int>, p: nat, k: nat)
    requires Splitting(s, t, p, k) && OrdersAgree(t, order, -1)
    requires Alloc(s, k).1 == Some(p) && t.lists == Alloc(s, k).0.lists
    ensures s.lo <= p < s.hi && OrdersAgree(Alloc(s, k).0, order[p := LiveMark(k)], -1)
    ensures Inv(Alloc(s, k).0) && Alloc(s, k).0.lo == s.lo && Alloc(s, k).0.hi == s.hi
  {
    AllocPreserves(s, k);
    AllocatedOrders(s, t, order, p, k);
  }

  lemma FreshAgrees(lists: map<nat, seq<nat>>, area: nat, order: seq<int>, lo: nat, hi: nat)
    requires lo <= hi <= |order| <= area
    requires forall x :: lo <= x < hi || area <= x < area + MAX_ORDER ==> Detached(lists, x)
    requires forall j :: 0 <= j < MAX_ORDER ==> Slot(area, j) in lists
    requires forall q :: lo <= q < hi ==> order[q] == -1
    ensures Inv(Fresh(lo, hi)) && OrdersAgree(Fresh(lo, hi), order, -1)
    ensures ListsAgree(lists, area, Fresh(lo, hi).lists, lo, hi)
  {
    FreshInv(lo, hi);
    forall k | 0 <= k < MAX_ORDER ensures lists[Slot(area, k)] == Fresh(lo, hi).lists[k] {
      assert Detached(lists, Slot(area, k));
    }
    forall h, q | h in lists && q in lists[h] ensures !(lo <= q < hi) {
      assert lo <= q < hi ==> Detached(lists, q);
    }
    forall q | q in lists && lo <= q < hi ensures lists[q] == [] {
      assert Detached(lists, q);
    }
  }

  // What a zone does to its own lists leaves those of a neighbour alone.
  lemma NeighbourAgrees(before: map<nat, seq<nat>>, after: map<nat, seq<nat>>,
                        area: nat, s: State, other: nat, t: State)
    requires Inv(s) && ListsAgree(after, area, s.lists, s.lo, s.hi)
    requires OthersKept(before, after, area, s.lo, s.hi)
    requires ListsAgree(before, other, t.lists, t.lo, t.hi)
    requires s.hi <= area && t.hi <= area && s.hi <= other && t.hi <= other
    requires s.hi <= t.lo || t.hi <= s.lo
    requires area + MAX_ORDER <= other || other + MAX_ORDER <= area
    ensures ListsAgree(after, other, t.lists, t.lo, t.hi)
  {
    forall h, q | h in after && q in after[h] && t.lo <= q < t.hi
      ensures other <= h < other + MAX_ORDER
    {
      if area <= h < area + MAX_ORDER {
        var k := h - area;
        assert h == Slot(area, k) && q in s.lists[k];
        ListedFree(s, q, k);
        assert false;
      } else if s.lo <= h < s.hi {
        assert false;
      }
    }
  }

  class Zone {
    const chains: ListPool
    const area: nat
    const order: array<int>
    const start: nat
    const end: nat
    ghost var s: State

    // What every operation keeps, with one page whose order field is in flux.
    ghost predicate Holds(t: State, p: int)
      reads chains, chains.next, chains.prev, order
    {
      && chains.Valid()
      && order.Length <= area && area + MAX_ORDER <= chains.next.Length
      && t.lo == start && t.hi == end && end <= order.Length
      && Inv(t)
      && ListsAgree(chains.lists, area, t.lists, t.lo, t.hi)
      && OrdersAgree(t, order[..], p)
    }

    ghost predicate Valid()
      reads this, chains, chains.next, chains.prev, order
    {
      Holds(s, -1)
    }

    // Releasing the claim on the order field of one page.
    lemma Except(t: State, p: nat)
      requires Holds(t, -1)
      ensures Holds(t, p)
    {
    }

    constructor (chains: ListPool, area: nat, order: array<int>, start: nat, end: nat)
      ensures this.chains == chains && this.area == area && this.order == order
      ensures this.start == start && this.end == end
    {
      this.chains, this.area, this.order, this.start, this.end := chains, area, order, start, end;
    }

    // The zone and its order fields.
    ghost function Mem(): Memory
      reads this, order
    {
      Memory(s, order[..])
    }

    // Coalesces the block of order k at p with its free buddies and lists the result.
    method FreePagesNode(p: nat, k: nat)
      requires Valid() && p in s.live && s.live[p] == k
      modifies this`s, chains, chains.next, chains.prev, order
      ensures Valid() && s == Free(old(s), p)
      ensures Legal(old(s), FreeOp(p)) && Mem() == MemStep(old(Mem()), FreeOp(p))
      ensures OthersKept(old(chains.lists), chains.lists, area, start, end)
    {
      var pages, o, t := TakeBuddies(p, k);
      Insert(t, pages, o);
      s := Free(t, pages);
    }

    // The coalescing loop. The block that results is seen as live in t.
    method TakeBuddies(p: nat, k: nat) returns (pages: nat, o: nat, ghost t: State)
      requires Valid() && p in s.live && s.live[p] == k
      modifies chains, chains.next, chains.prev
      ensures Coalescing(t, pages, o, p) && Unmergeable(t, pages, o)
      ensures OthersKept(old(chains.lists), chains.lists, area, start, end)
    {
      pages, o, t := p, k, s;
      assert Holds(t, p) by { Except(t, p); }
      assert k < MAX_ORDER by { LiveBlock(s, p); }
      while o < MAX_ORDER - 1
        invariant Coalescing(t, pages, o, p)
        invariant OthersKept(old(chains.lists), chains.lists, area, start, end)
        decreases MAX_ORDER - o
      {
        var mergeable := Mergeable(t, pages, o);
        if !mergeable {
          break;
        }
        pages, t := TakeBuddy(t, pages, o, p);
        o := o + 1;
      }
    }

    // Between two rounds: the block (pages, o) has taken in all that was to be merged
    // with (p, k) so far.
    ghost predicate Coalescing(t: State, pages: nat, o: nat, p: nat)
      reads this, chains, chains.next, chains.prev, order
    {
      && Holds(t, pages) && pages in t.live && t.live[pages] == o < MAX_ORDER
      && |s.lists| == MAX_ORDER && p in s.live && s.live[p] < MAX_ORDER
      && Free(t, pages) == Free(s, p)
      && Coalesced(start, end, t.lists, pages, o) == Coalesced(start, end, s.lists, p, s.live[p])
    }

    // The block (pages, o) has no free buddy in t.
    ghost predicate Unmergeable(t: State, pages: nat, o: nat) {
      o < MAX_ORDER - 1 && start <= BuddyOf(pages, o) < end && o < |t.lists| ==> BuddyOf(pages, o) !in t.lists[o]
    }

    // The two tests of the loop. The order field alone decides whether the buddy is a
    // free block of this order.
    method Mergeable(ghost t: State, pages: nat, o: nat) returns (yes: bool)
      requires Holds(t, pages) && pages in t.live && t.live[pages] == o < MAX_ORDER - 1
      ensures yes <==> start <= BuddyOf(pages, o) < end && BuddyOf(pages, o) in t.lists[o]
    {
      var buddy := BuddyOf(pages, o);
      if buddy >= end || buddy < start {
        return false;
      }
      StaleOrdersHarmless(t, order[..], pages);
      yes := o == order[buddy];
    }

    // One round of the coalescing loop: unlinks the buddy of the block.
    method TakeBuddy(ghost t: State, pages: nat, o: nat, ghost p: nat) returns (lower: nat, ghost u: State)
      requires Coalescing(t, pages, o, p) && o < MAX_ORDER - 1
      requires start <= BuddyOf(pages, o) < end && BuddyOf(pages, o) in t.lists[o]
      modifies chains, chains.next, chains.prev
      ensures Coalescing(u, lower, o + 1, p)
      ensures OthersKept(old(chains.lists), chains.lists, area, start, end)
    {
      var buddy := BuddyOf(pages, o);
      AbsorbPreserves(t, pages);
      AbsorbAgrees(chains.lists, area, t, order[..], pages);
      chains.Remove(buddy, Slot(area, o));
      lower, u := pages, Absorb(t, pages);
      if buddy < pages {
        lower := buddy;
      }
    }

    // The end of the coalescing loop: the block becomes free as it is.
    method Insert(ghost t: State, pages: nat, o: nat)
      requires Holds(t, pages) && pages in t.live && t.live[pages] == o < MAX_ORDER && Unmergeable(t, pages, o)
      modifies chains, chains.next, chains.prev, order
      ensures Holds(Free(t, pages), -1) && pages < order.Length
      ensures order[..] == old(order[..])[pages := o]
      ensures OthersKept(old(chains.lists), chains.lists, area, start, end)
    {
      FreePreserves(t, pages);
      FreedAgrees(chains.lists, area, t, order[..], pages);
      order[pages] := o;
      chains.AddTail(Slot(area, o), pages);
    }

    // The caller must own the block; the code's assertion then holds, although on its
    // own it would also accept a page that kept a stale negative order.
    method FreePages(p: nat, k: nat)
      requires Valid() && p in s.live && s.live[p] == k
      modifies this`s, chains, chains.next, chains.prev, order
      ensures Valid() && s == Free(old(s), p)
      ensures Legal(old(s), FreeOp(p)) && Mem() == MemStep(old(Mem()), FreeOp(p))
      ensures OthersKept(old(chains.lists), chains.lists, area, start, end)
    {
      assert order[p] == order[..][p];
      assert order[p] < 0 && -order[p] - 1 == k;
      FreePagesNode(p, k);
    }

    // Takes the first block of the smallest sufficient order and halves it down to k.
    method AllocPages(k: nat) returns (page: Option<nat>)
      requires Valid() && k < MAX_ORDER
      modifies this`s, chains, chains.next, chains.prev, order
      ensures Valid() && (s, page) == Alloc(old(s), k)
      ensures Mem() == MemStep(old(Mem()), AllocOp(k))
      ensures OthersKept(old(chains.lists), chains.lists, area, start, end)
    {
      var c := FirstNonEmpty(k);
      if c >= MAX_ORDER {
        return None;
      }
      var p := TakeFirst(c);
      ghost var t := SplitDown(p, c, k, Taken(s, p, c));
      Mark(p, k, t);
      s := Alloc(s, k).0;
      return Some(p);
    }

    // Unlinks the first block of list c.
    method TakeFirst(c: nat) returns (p: nat)
      requires Valid() && c < MAX_ORDER && s.lists[c] != []
      modifies chains, chains.next, chains.prev
      ensures p == s.lists[c][0] && SplitHolds(Taken(s, p, c), p, c)
      ensures OthersKept(old(chains.lists), chains.lists, area, start, end)
    {
      p := chains.First(Slot(area, c));
      TakenAgrees(chains.lists, area, s, order[..], p, c);
      chains.Remove(p, Slot(area, c));
    }

    // The lists hold t while the block (p, c) taken from s is being split.
    ghost predicate SplitHolds(t: State, p: nat, c: nat)
      reads this, chains, chains.next, chains.prev, order
    {
      && chains.Valid()
      && order.Length <= area && area + MAX_ORDER <= chains.next.Length
      && t.lo == start && t.hi == end && end <= order.Length
      && Splitting(s, t, p, c)
      && ListsAgree(chains.lists, area, t.lists, start, end)
      && OrdersAgree(t, order[..], -1)
    }

    // The block (p, k) becomes live.
    method Mark(p: nat, k: nat, ghost t: State)
      requires SplitHolds(t, p, k) && Alloc(s, k).1 == Some(p) && t.lists == Alloc(s, k).0.lists
      modifies order
      ensures Holds(Alloc(s, k).0, -1) && p < order.Length
      ensures order[..] == old(order[..])[p := LiveMark(k)]
    {
      AllocatedAgrees(s, t, order[..], p, k);
      order[p] := LiveMark(k);
    }

    // Halves the block (p, from) down to order k, listing every upper half.
    method SplitDown(p: nat, from: nat, k: nat, ghost t0: State) returns (ghost t: State)
      requires SplitHolds(t0, p, from) && k <= from
      modifies chains, chains.next, chains.prev, order
      ensures SplitHolds(t, p, k) && t.lists == Split(t0.lists, p, from, k)
      ensures order[..] == SplitOrder(old(order[..]), p, from, k)
      ensures OthersKept(old(chains.lists), chains.lists, area, start, end)
    {
      var c := from;
      t := t0;
      ghost var lists, orders := Split(t0.lists, p, from, k), SplitOrder(order[..], p, from, k);
      while c > k
        invariant k <= c <= from && SplitHolds(t, p, c)
        invariant SplitsTo(t.lists, order[..], p, c, k, lists, orders)
        invariant OthersKept(old(chains.lists), chains.lists, area, start, end)
      {
        ghost var above := c;
        c := c - 1;
        SplitRound(t.lists, order[..], p, above, c, k, lists, orders);
        GiveBack(p, c, t);
        t := Halved(s, t, p, c);
      }
    }

    method GiveBack(p: nat, c: nat, ghost t: State)
      requires SplitHolds(t, p, c + 1)
      modifies chains, chains.next, chains.prev, order
      ensures SplitHolds(Halved(s, t, p, c), p, c)
      ensures order[..] == Write(old(order[..]), BuddyOf(p, c), c)
      ensures OthersKept(old(chains.lists), chains.lists, area, start, end)
    {
      var buddy := BuddyOf(p, c);
      HalfAgrees(chains.lists, area, s, t, order[..], p, c);
      order[buddy] := c;
      chains.AddTail(Slot(area, c), buddy);
    }

    method FirstNonEmpty(k: nat) returns (c: nat)
      requires Valid() && k < MAX_ORDER
      ensures c == Scan(s.lists, k)
    {
      c := k;
      while c < MAX_ORDER
        invariant k <= c <= MAX_ORDER && Scan(s.lists, c) == Scan(s.lists, k)
      {
        var empty := chains.Empty(Slot(area, c));
        if !empty {
          break;
        }
        c := c + 1;
      }
    }

    // The zone's pages and list heads are nodes of the pool that are on no list.
    ghost predicate Unused()
      reads chains, chains.next, chains.prev
    {
      && chains.Valid()
      && start <= end <= order.Length <= area && area + MAX_ORDER <= chains.next.Length
      && forall x :: start <= x < end || area <= x < area + MAX_ORDER ==> Detached(chains.lists, x)
    }

    // list_init_head on a page chain or on one of the zone's heads.
    method InitNode(x: nat)
      requires Unused() && (start <= x < end || area <= x < area + MAX_ORDER)
      modifies chains, chains.next, chains.prev
      ensures Unused() && chains.lists == old(chains.lists)[x := []]
    {
      chains.InitHead(x);
      forall y | start <= y < end || area <= y < area + MAX_ORDER ensures Detached(chains.lists, y) {
        assert Detached(old(chains.lists), y);
      }
    }

    method InitHeads()
      requires Unused()
      modifies chains, chains.next, chains.prev
      ensures Unused() && forall j :: 0 <= j < MAX_ORDER ==> Slot(area, j) in chains.lists
      ensures OthersKept(old(chains.lists), chains.lists, area, start, end)
    {
      for k := 0 to MAX_ORDER
        invariant Unused()
        invariant forall j :: 0 <= j < k ==> Slot(area, j) in chains.lists
        invariant OthersKept(old(chains.lists), chains.lists, area, start, end)
      {
        InitNode(Slot(area, k));
      }
    }

    method InitPages()
      requires Unused() && forall j :: 0 <= j < MAX_ORDER ==> Slot(area, j) in chains.lists
      modifies this`s, chains, chains.next, chains.prev, order
      ensures Valid() && Mem() == Born(old(order[..]), start, end)
      ensures OthersKept(old(chains.lists), chains.lists, area, start, end)
    {
      for pfn := start to end
        invariant Unused()
        invariant forall j :: 0 <= j < MAX_ORDER ==> Slot(area, j) in chains.lists
        invariant forall q :: start <= q < pfn ==> order[q] == -1
        invariant forall q :: 0 <= q < order.Length && !(start <= q < end) ==> order[q] == old(order[q])
        invariant OthersKept(old(chains.lists), chains.lists, area, start, end)
      {
        InitNode(pfn);
        order[pfn] := -1;
      }
      FreshAgrees(chains.lists, area, order[..], start, end);
      s := Fresh(start, end);
    }

    // The list heads and page chains become empty rings, every page a live block of
    // order 0; then the pages that isFree accepts are freed one at a time.
    method InitZone(isFree: nat -> bool)
      requires Unused()
      modifies this`s, chains, chains.next, chains.prev, order
      ensures Valid() && Mem() == Initialised(old(order[..]), start, end, isFree)
      ensures FreedUpTo(s, isFree, end)
      ensures OthersKept(old(chains.lists), chains.lists, area, start, end)
    {
      ghost var orders := order[..];
      InitialisedMeaning(orders, start, end, isFree);
      InitHeads();
      InitPages();
      ConsideredStart(Mem(), start, end, isFree);
      ghost var inv := Reaches(Mem(), start, end, isFree);
      ReachesSustains(Mem(), start, end, isFree);
      FreeAcceptedPages(isFree, inv);
    }

    method FreeAcceptedPages(isFree: nat -> bool, ghost inv: (Memory, nat) -> bool)
      requires start <= end && Valid() && Sustains(inv, isFree, start, end) && inv(Mem(), start)
      modifies this`s, chains, chains.next, chains.prev, order
      ensures Valid() && inv(Mem(), end)
      ensures OthersKept(old(chains.lists), chains.lists, area, start, end)
    {
      for pfn := start to end
        invariant Valid() && inv(Mem(), pfn)
        invariant OthersKept(old(chains.lists), chains.lists, area, start, end)
      {
        assert Ready(Mem(), isFree, pfn);
        FreeIfAccepted(isFree, pfn);
      }
    }

    method FreeIfAccepted(isFree: nat -> bool, pfn: nat)
      requires Valid() && start <= pfn < end && Ready(Mem(), isFree, pfn)
      modifies this`s, chains, chains.next, chains.prev, order
      ensures Valid() && Mem() == Freeing(isFree)(old(Mem()), pfn)
      ensures OthersKept(old(chains.lists), chains.lists, area, start, end)
    {
      if isFree(pfn) {
        FreePages(pfn, 0);
      }
    }
  }

  // Two zones of one node: one page array, one pool, ranges and heads apart.
  ghost predicate Beside(a: Zone, b: Zone) {
    && a != b && a.chains == b.chains && a.order == b.order
    && (a.end <= b.start || b.end <= a.start)
    && (a.area + MAX_ORDER <= b.area || b.area + MAX_ORDER <= a.area)
  }

  // The zone b agrees with lists and order fields.
  ghost predicate InStep(b: Zone, lists: map<nat, seq<nat>>, order: seq<int>)
    reads b, b.chains
  {
    && ListsAgree(lists, b.area, b.s.lists, b.s.lo, b.s.hi) && OrdersAgree(b.s, order, -1) && Inv(b.s)
    && b.s.lo == b.start && b.s.hi == b.end && b.end <= b.order.Length <= b.area
    && b.area + MAX_ORDER <= b.chains.next.Length
  }

  // What happens inside one zone leaves the other valid.
  lemma BesideKept(before: map<nat, seq<nat>>, orders: seq<int>, a: Zone, b: Zone)
    requires Beside(a, b) && a.Valid() && InStep(b, before, orders)
    requires OthersKept(before, a.chains.lists, a.area, a.start, a.end)
    requires OrdersKept(orders, a.order[..], a.start, a.end)
    ensures b.Valid()
  {
    NeighbourAgrees(before, a.chains.lists, a.area, a.s, b.area, b.s);
    NeighbourOrders(orders, a.order[..], b.s);
  }

  // Coalescing in one zone never reaches into the other.
  method FreeBeside(a: Zone, b: Zone, p: nat, k: nat)
    requires Beside(a, b) && a.Valid() && b.Valid() && p in a.s.live && a.s.live[p] == k
    modifies a`s, a.chains, a.chains.next, a.chains.prev, a.order
    ensures a.Valid() && b.Valid() && a.s == Free(old(a.s), p) && b.s == old(b.s)
  {
    StepInside(a.Mem(), FreeOp(p));
    a.FreePages(p, k);
    BesideKept(old(a.chains.lists), old(a.order[..]), a, b);
  }

  method AllocBeside(a: Zone, b: Zone, k: nat) returns (page: Option<nat>)
    requires Beside(a, b) && a.Valid() && b.Valid() && k < MAX_ORDER
    modifies a`s, a.chains, a.chains.next, a.chains.prev, a.order
    ensures a.Valid() && b.Valid() && (a.s, page) == Alloc(old(a.s), k) && b.s == old(b.s)
  {
    StepInside(a.Mem(), AllocOp(k));
    page := a.AllocPages(k);
    BesideKept(old(a.chains.lists), old(a.order[..]), a, b);
  }

  // A node initialises its zones one after the other.
  method InitBeside(a: Zone, b: Zone, isFree: nat -> bool)
    requires Beside(a, b) && a.Unused() && b.Valid()
    modifies a`s, a.chains, a.chains.next, a.chains.prev, a.order
    ensures a.Valid() && b.Valid() && FreedUpTo(a.s, isFree, a.end) && b.s == old(b.s)
  {
    InitialisedMeaning(a.order[..], a.start, a.end, isFree);
    a.InitZone(isFree);
    BesideKept(old(a.chains.lists), old(a.order[..]), a, b);
  }

  lemma NeighbourOrders(before: seq<int>, after: seq<int>, t: State)
    requires Inv(t) && OrdersAgree(t, before, -1) && |before| == |after|
    requires forall q :: t.lo <= q < t.hi ==> before[q] == after[q]
    ensures OrdersAgree(t, after, -1)
  {
    forall k, q: nat | 0 <= k < |t.lists| && q in t.lists[k] ensures q < t.hi && after[q] == k {
      ListedFree(t, q, k);
    }
    forall q: nat | q in t.live ensures q < t.hi && after[q] == LiveMark(t.live[q]) {
      LiveBlock(t, q);
      assert LiveAt(t.live, q, t.live[q]);
    }
  }
}
