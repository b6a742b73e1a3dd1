/**
 The kernel page table: the permanent mapping of low memory that boot.S fills in, and
 above it the window of kernel/arch/x86/kmap.c, whose entries are handed out upwards
 from a base, with a top mark that retreats over unmapped entries.
 */
module Kmap {
  import opened Bits
  import opened Words
  import opened Seqs

  const KMAP_OFFSET: nat := 0xF800_0000
  const LOWMEM_PAGE_FRAMES: nat := 0x3_8000
  const KERNEL_PAGE_FRAMES: nat := 0x4_0000
  const PTE_PRESENT: nat := 1
  const PTE_INIT_ATTR: nat := 3

  /* Page table entries: the frame in the high bits, flags in the low twelve. */

  function CreateTableEntry(paddr: nat, flags: nat): nat {
    Or(AndNot(paddr, PAGE_SIZE - 1), And(flags, PAGE_SIZE - 1))
  }

  function PageFlags(pte: nat): nat {
    And(pte, PAGE_SIZE - 1)
  }

  function PagePaddr(pte: nat): nat {
    AndNot(pte, PAGE_SIZE - 1)
  }

  predicate Present(pte: nat) {
    And(PageFlags(pte), PTE_PRESENT) != 0
  }

  lemma PageIsPow2()
    ensures Pow2(12) == PAGE_SIZE
  {
    assert Pow2(4) == 16;
    assert Pow2(8) == 16 * Pow2(4);
    assert Pow2(12) == 16 * Pow2(8);
  }

  // The flags and the frame are read back as they were put in.
  lemma EntryMeaning(paddr: nat, flags: nat)
    ensures PageFlags(CreateTableEntry(paddr, flags)) == flags % PAGE_SIZE
    ensures PagePaddr(CreateTableEntry(paddr, flags)) == paddr - paddr % PAGE_SIZE
  {
    PageIsPow2();
    MaskRounds(paddr, 12);
    MaskKeeps(flags, 12);
    BaseMod(paddr, 12);
    BaseMod(flags, 12);
    var r := flags % PAGE_SIZE;
    OrAdds(paddr, r, 12);
    var e := Base(paddr, 12) + r;
    BaseAligned(paddr, 12);
    BaseUnique(Base(paddr, 12), e, 12);
    MaskRounds(e, 12);
    MaskKeeps(e, 12);
  }

  // x & 1
  lemma LowBit(x: nat)
    ensures And(x, PTE_PRESENT) == x % 2
  {
    assert Pow2(1) == 2;
    MaskKeeps(x, 1);
    BaseMod(x, 1);
  }

  lemma PresentMeaning(pte: nat)
    ensures Present(pte) <==> pte % 2 == 1
  {
    LowBitOfFlags(pte);
    LowBit(PageFlags(pte));
  }

  // What the hardware finds in an entry for a request: the frame of paddr, the flags
  // that were asked for, and the present bit.
  ghost predicate Grants(pte: nat, paddr: nat, flags: nat) {
    && PagePaddr(pte) == paddr - paddr % PAGE_SIZE
    && PageFlags(pte) < PAGE_SIZE
    && forall i: nat :: i < 12 ==> (Bit(PageFlags(pte), i) <==> Bit(flags, i) || i == 0)
  }

  lemma EntryGrants(paddr: nat, flags: nat)
    ensures Grants(CreateTableEntry(paddr, Or(flags, PTE_PRESENT)), paddr, flags)
  {
    var f := Or(flags, PTE_PRESENT);
    EntryMeaning(paddr, f);
    PageIsPow2();
    forall i: nat | i < 12 ensures Bit(f % PAGE_SIZE, i) <==> Bit(flags, i) || i == 0 {
      ModBit(f, 12, i);
      OrBit(flags, PTE_PRESENT, i);
      Pow2Bit(0, i);
    }
  }

  // The flags with which the interrupt controllers are mapped: present, writable, not cached.
  lemma DeviceFlags()
    ensures PageFlags(CreateTableEntry(0xFEC0_0000, Or(0x12, PTE_PRESENT))) == 0x13
  {
    EntryMeaning(0xFEC0_0000, Or(0x12, PTE_PRESENT));
    assert Or(0x12, 1) == 2 * Or(9, 0) + 1;
    OrZero(9);
  }

  // The permanent entry of page i, written once at boot.
  function DirectEntry(i: nat): nat {
    PTE_INIT_ATTR + i * PAGE_SIZE
  }

  lemma DirectMeaning(i: nat)
    ensures Present(DirectEntry(i)) && PagePaddr(DirectEntry(i)) == i * PAGE_SIZE
    ensures PageFlags(DirectEntry(i)) == PTE_INIT_ATTR
  {
    var e := DirectEntry(i);
    PageIsPow2();
    ModUnique(e, i, PAGE_SIZE);
    MaskRounds(e, 12);
    MaskKeeps(e, 12);
    BaseMod(e, 12);
    PresentMeaning(e);
  }

  lemma EntryPresent(paddr: nat, flags: nat)
    ensures Present(CreateTableEntry(paddr, Or(flags, PTE_PRESENT)))
    ensures !Present(CreateTableEntry(0, 0))
  {
    var f := Or(flags, PTE_PRESENT);
    OrBit(flags, PTE_PRESENT, 0);
    assert Bit(f, 0) && f % 2 == 1;
    EntryParity(paddr, f);
    EntryParity(0, 0);
  }

  lemma EntryParity(paddr: nat, flags: nat)
    ensures Present(CreateTableEntry(paddr, flags)) <==> flags % 2 == 1
  {
    var e := CreateTableEntry(paddr, flags);
    EntryMeaning(paddr, flags);
    PresentMeaning(e);
    LowBitOfFlags(e);
    EvenModulus(flags);
  }

  lemma EvenModulus(x: nat)
    ensures x % PAGE_SIZE % 2 == x % 2
  {
    assert x == x / PAGE_SIZE * PAGE_SIZE + x % PAGE_SIZE;
  }

  lemma LowBitOfFlags(pte: nat)
    ensures PageFlags(pte) % 2 == pte % 2
  {
    PageIsPow2();
    MaskKeeps(pte, 12);
    BaseMod(pte, 12);
    EvenModulus(pte);
  }

  /* The window */

  datatype Window = Window(entries: seq<nat>, top: nat)

  // Entry i of the table maps the page at this address.
  function Address(i: nat): nat {
    PAGE_OFFSET + i * PAGE_SIZE
  }

  function IndexOf(vaddr: nat): nat
    requires vaddr >= PAGE_OFFSET
  {
    (vaddr - PAGE_OFFSET) / PAGE_SIZE
  }

  // The permanent entries are those of boot; nothing is mapped from the top on, and the
  // entry below the top is.
  ghost predicate Inv(w: Window) {
    && |w.entries| == KERNEL_PAGE_FRAMES && LOWMEM_PAGE_FRAMES <= w.top <= KERNEL_PAGE_FRAMES
    && (forall i :: 0 <= i < LOWMEM_PAGE_FRAMES ==> w.entries[i] == DirectEntry(i))
    && (forall i :: w.top <= i < KERNEL_PAGE_FRAMES ==> !Present(w.entries[i]))
    && (w.top == LOWMEM_PAGE_FRAMES || Present(w.entries[w.top - 1]))
  }

  // The physical address that the hardware makes of a virtual one.
  function Translate(w: Window, vaddr: nat): Option<nat>
    requires PAGE_OFFSET <= vaddr < WORD_RANGE && |w.entries| == KERNEL_PAGE_FRAMES
  {
    var e := w.entries[IndexOf(vaddr)];
    if Present(e) then Some(PagePaddr(e) + vaddr % PAGE_SIZE) else None
  }

  predicate IsMapped(w: Window, i: nat) {
    LOWMEM_PAGE_FRAMES <= i < |w.entries| && Present(w.entries[i])
  }

  // Low memory is mapped permanently; other addresses take the entry at the top.
  function Map(w: Window, paddr: nat, flags: nat): (Window, nat)
    requires paddr < KMAP_OFFSET - PAGE_OFFSET || w.top < |w.entries|
  {
    if paddr < KMAP_OFFSET - PAGE_OFFSET then (w, PAGE_OFFSET + paddr)
    else (Window(w.entries[w.top := CreateTableEntry(paddr, Or(flags, PTE_PRESENT))], w.top + 1), Address(w.top))
  }

  // The lowest mark that leaves only entries that are not present above it.
  function Retreat(entries: seq<nat>, top: nat): nat
    requires top <= |entries|
  {
    if top > LOWMEM_PAGE_FRAMES && !Present(entries[top - 1]) then Retreat(entries, top - 1) else top
  }

  function Unmap(w: Window, vaddr: nat): Window
    requires vaddr < WORD_RANGE && |w.entries| == KERNEL_PAGE_FRAMES
  {
    if vaddr < KMAP_OFFSET then w
    else
      var pe := IndexOf(vaddr);
      var entries := w.entries[pe := CreateTableEntry(0, 0)];
      if pe + 1 != w.top then w.(entries := entries) else Window(entries, Retreat(entries, w.top))
  }

  lemma {:induction false} RetreatStops(entries: seq<nat>, top: nat)
    requires LOWMEM_PAGE_FRAMES <= top <= |entries| == KERNEL_PAGE_FRAMES
    requires forall i :: 0 <= i < LOWMEM_PAGE_FRAMES ==> entries[i] == DirectEntry(i)
    requires forall i :: top <= i < |entries| ==> !Present(entries[i])
    ensures Inv(Window(entries, Retreat(entries, top)))
  {
    if top > LOWMEM_PAGE_FRAMES && !Present(entries[top - 1]) {
      RetreatStops(entries, top - 1);
    }
  }

  // A new mapping uses a free entry, grants what was asked for, and leaves every other
  // entry as it was.
  lemma MapAdds(w: Window, paddr: nat, flags: nat)
    requires Inv(w) && w.top < KERNEL_PAGE_FRAMES
    requires KMAP_OFFSET - PAGE_OFFSET <= paddr < WORD_RANGE
    ensures var (z, a) := Map(w, paddr, flags);
            Inv(z) && KMAP_OFFSET <= a < WORD_RANGE && a % PAGE_SIZE == 0
            && !IsMapped(w, IndexOf(a)) && IsMapped(z, IndexOf(a)) && Grants(z.entries[IndexOf(a)], paddr, flags)
            && forall i: nat :: i < KERNEL_PAGE_FRAMES && i != IndexOf(a) ==> z.entries[i] == w.entries[i]
  {
    EntryPresent(paddr, flags);
    EntryGrants(paddr, flags);
    AddressIndex(w.top);
  }

  // The address that kmap returns translates to the page of paddr: to paddr itself
  // exactly when paddr is in low memory or page aligned.
  lemma MapTranslation(w: Window, paddr: nat, flags: nat)
    requires Inv(w) && Legal(w, MapOp(paddr, flags))
    ensures var (z, a) := Map(w, paddr, flags);
            PAGE_OFFSET <= a < WORD_RANGE && |z.entries| == KERNEL_PAGE_FRAMES
            && (Translate(z, a) == Some(paddr) <==> paddr < KMAP_OFFSET - PAGE_OFFSET || paddr % PAGE_SIZE == 0)
            && (paddr >= KMAP_OFFSET - PAGE_OFFSET ==> Translate(z, a) == Some(paddr - paddr % PAGE_SIZE))
  {
    if paddr < KMAP_OFFSET - PAGE_OFFSET {
      LowTranslation(w, paddr);
    } else {
      MapAdds(w, paddr, flags);
    }
  }

  // Low memory translates at the fixed offset, whatever the window holds.
  lemma LowTranslation(w: Window, paddr: nat)
    requires Inv(w) && paddr < KMAP_OFFSET - PAGE_OFFSET
    ensures Translate(w, PAGE_OFFSET + paddr) == Some(paddr)
  {
    var i := paddr / PAGE_SIZE;
    assert IndexOf(PAGE_OFFSET + paddr) == i && i < LOWMEM_PAGE_FRAMES;
    DirectMeaning(i);
  }

  lemma AddressIndex(i: nat)
    ensures IndexOf(Address(i)) == i && Address(i) % PAGE_SIZE == 0
    ensures LOWMEM_PAGE_FRAMES <= i < KERNEL_PAGE_FRAMES <==> KMAP_OFFSET <= Address(i) < WORD_RANGE
  {
  }

  lemma UnmapRemoves(w: Window, vaddr: nat)
    requires Inv(w) && KMAP_OFFSET <= vaddr < WORD_RANGE
    ensures Inv(Unmap(w, vaddr)) && !IsMapped(Unmap(w, vaddr), IndexOf(vaddr))
    ensures forall i: nat :: i < KERNEL_PAGE_FRAMES && i != IndexOf(vaddr) ==>
              Unmap(w, vaddr).entries[i] == w.entries[i]
  {
    EntryPresent(0, 0);
    var pe := IndexOf(vaddr);
    var entries := w.entries[pe := CreateTableEntry(0, 0)];
    if pe + 1 == w.top {
      RetreatStops(entries, w.top);
    }
  }

  /* Runs, with a record of the live mappings: address to request. */

  datatype Op = MapOp(paddr: nat, flags: nat) | UnmapOp(vaddr: nat)
  datatype Request = Request(paddr: nat, flags: nat)

  // The window has room; an unmapped address may be any.
  predicate Legal(w: Window, op: Op) {
    match op
    case MapOp(paddr, _) => paddr < WORD_RANGE && (paddr >= KMAP_OFFSET - PAGE_OFFSET ==> w.top < KERNEL_PAGE_FRAMES)
    case UnmapOp(v) => v < WORD_RANGE
  }

  function Act(w: Window, op: Op): Window
    requires |w.entries| == KERNEL_PAGE_FRAMES && Legal(w, op)
  {
    match op
    case MapOp(paddr, flags) => Map(w, paddr, flags).0
    case UnmapOp(v) => Unmap(w, v)
  }

  // What callers may rely on: the addresses they got and have not unmapped.
  function Record(w: Window, live: map<nat, Request>, op: Op): map<nat, Request>
    requires |w.entries| == KERNEL_PAGE_FRAMES && Legal(w, op)
  {
    match op
    case MapOp(paddr, flags) =>
      if paddr < KMAP_OFFSET - PAGE_OFFSET then live else live[Map(w, paddr, flags).1 := Request(paddr, flags)]
    case UnmapOp(v) => if v < KMAP_OFFSET then live else live - {Address(IndexOf(v))}
  }

  // The table grants the live addresses, and only those, what was asked for them.
  ghost predicate Translates(w: Window, live: map<nat, Request>) {
    && (forall i: nat :: IsMapped(w, i) ==>
          Address(i) in live && Grants(w.entries[i], live[Address(i)].paddr, live[Address(i)].flags))
    && (forall a :: a in live ==> a >= KMAP_OFFSET && Address(IndexOf(a)) == a && IsMapped(w, IndexOf(a)))
  }

  lemma MapTranslates(w: Window, live: map<nat, Request>, paddr: nat, flags: nat)
    requires Inv(w) && Translates(w, live) && w.top < KERNEL_PAGE_FRAMES
    requires KMAP_OFFSET - PAGE_OFFSET <= paddr < WORD_RANGE
    ensures var (z, a) := Map(w, paddr, flags);
            Inv(z) && a !in live && Translates(z, live[a := Request(paddr, flags)])
  {
    MapAdds(w, paddr, flags);
    AddressIndex(w.top);
  }

  lemma UnmapTranslates(w: Window, live: map<nat, Request>, vaddr: nat)
    requires Inv(w) && Translates(w, live) && KMAP_OFFSET <= vaddr < WORD_RANGE
    ensures Inv(Unmap(w, vaddr)) && Translates(Unmap(w, vaddr), live - {Address(IndexOf(vaddr))})
  {
    UnmapRemoves(w, vaddr);
    var z := Unmap(w, vaddr);
    forall i: nat ensures IsMapped(z, i) <==> IsMapped(w, i) && i != IndexOf(vaddr) {}
  }

  lemma ActTranslates(w: Window, live: map<nat, Request>, op: Op)
    requires Inv(w) && Translates(w, live) && Legal(w, op)
    ensures Inv(Act(w, op)) && Translates(Act(w, op), Record(w, live, op))
    ensures op.MapOp? && op.paddr >= KMAP_OFFSET - PAGE_OFFSET ==> Map(w, op.paddr, op.flags).1 !in live
  {
    match op {
      case MapOp(paddr, flags) => if paddr >= KMAP_OFFSET - PAGE_OFFSET { MapTranslates(w, live, paddr, flags); }
      case UnmapOp(v) => if v >= KMAP_OFFSET { UnmapTranslates(w, live, v); }
    }
  }

  // An operation on a low address, mapping or unmapping, leaves the table and the top
  // alone; no operation at all touches a permanent entry.
  lemma LowMemoryKept(w: Window, op: Op)
    requires |w.entries| == KERNEL_PAGE_FRAMES && w.top >= LOWMEM_PAGE_FRAMES && Legal(w, op)
    ensures forall i :: 0 <= i < LOWMEM_PAGE_FRAMES ==> Act(w, op).entries[i] == w.entries[i]
    ensures (if op.MapOp? then op.paddr < KMAP_OFFSET - PAGE_OFFSET else op.vaddr < KMAP_OFFSET) ==> Act(w, op) == w
    ensures |Act(w, op).entries| == KERNEL_PAGE_FRAMES && Act(w, op).top >= LOWMEM_PAGE_FRAMES
  {
    if op.UnmapOp? && op.vaddr >= KMAP_OFFSET {
      assert IndexOf(op.vaddr) >= LOWMEM_PAGE_FRAMES;
      if IndexOf(op.vaddr) + 1 == w.top { RetreatAbove(w.entries[IndexOf(op.vaddr) := CreateTableEntry(0, 0)], w.top); }
    }
  }

  lemma {:induction false} RetreatAbove(entries: seq<nat>, top: nat)
    requires LOWMEM_PAGE_FRAMES <= top <= |entries|
    ensures LOWMEM_PAGE_FRAMES <= Retreat(entries, top) <= top
  {
    if top > LOWMEM_PAGE_FRAMES && !Present(entries[top - 1]) { RetreatAbove(entries, top - 1); }
  }

  ghost predicate IsRun(ws: seq<Window>, lives: seq<map<nat, Request>>, ops: seq<Op>) {
    && |ws| == |lives| == |ops| + 1
    && forall i :: 0 <= i < |ops| ==>
         |ws[i].entries| == KERNEL_PAGE_FRAMES && Legal(ws[i], ops[i])
         && ws[i + 1] == Act(ws[i], ops[i]) && lives[i + 1] == Record(ws[i], lives[i], ops[i])
  }

  // From an empty window on, the table grants every live address what was asked for it
  // after any number of operations; once no address is live, the window is back at its base.
  lemma {:induction false} RunTranslates(ws: seq<Window>, lives: seq<map<nat, Request>>, ops: seq<Op>, n: nat)
    requires IsRun(ws, lives, ops) && n < |ws| && lives[0] == map[] && Inv(ws[0]) && ws[0].top == LOWMEM_PAGE_FRAMES
    ensures Inv(ws[n]) && Translates(ws[n], lives[n])
    ensures lives[n] == map[] ==> ws[n].top == LOWMEM_PAGE_FRAMES
  {
    if n > 0 {
      RunTranslates(ws, lives, ops, n - 1);
      ActTranslates(ws[n - 1], lives[n - 1], ops[n - 1]);
      if lives[n] == map[] {
        assert !IsMapped(ws[n], ws[n].top - 1);
      }
    }
  }

  // What callers may expect the hardware to make of an address: low memory at the fixed
  // offset, a page they mapped in the frame they asked for, and nothing else.
  function Expected(live: map<nat, Request>, vaddr: nat): Option<nat> {
    if PAGE_OFFSET <= vaddr < KMAP_OFFSET then Some(vaddr - PAGE_OFFSET)
    else if PageOf(vaddr) in live then Some(PageOf(live[PageOf(vaddr)].paddr) + vaddr % PAGE_SIZE)
    else None
  }

  function PageOf(x: nat): nat {
    x - x % PAGE_SIZE
  }

  lemma PageIndex(vaddr: nat)
    requires KMAP_OFFSET <= vaddr < WORD_RANGE
    ensures Address(IndexOf(vaddr)) == PageOf(vaddr) && IndexOf(PageOf(vaddr)) == IndexOf(vaddr)
    ensures LOWMEM_PAGE_FRAMES <= IndexOf(vaddr) < KERNEL_PAGE_FRAMES
  {
  }

  lemma TranslatesAll(w: Window, live: map<nat, Request>, vaddr: nat)
    requires Inv(w) && Translates(w, live) && PAGE_OFFSET <= vaddr < WORD_RANGE
    ensures Translate(w, vaddr) == Expected(live, vaddr)
  {
    if vaddr < KMAP_OFFSET {
      LowTranslation(w, vaddr - PAGE_OFFSET);
    } else {
      PageIndex(vaddr);
      assert IsMapped(w, IndexOf(vaddr)) <==> PageOf(vaddr) in live;
    }
  }

  // At any time of a run the hardware translates every kernel address as expected.
  lemma RunAddresses(ws: seq<Window>, lives: seq<map<nat, Request>>, ops: seq<Op>, n: nat, vaddr: nat)
    requires IsRun(ws, lives, ops) && n < |ws| && lives[0] == map[] && Inv(ws[0]) && ws[0].top == LOWMEM_PAGE_FRAMES
    requires PAGE_OFFSET <= vaddr < WORD_RANGE
    ensures |ws[n].entries| == KERNEL_PAGE_FRAMES && Translate(ws[n], vaddr) == Expected(lives[n], vaddr)
  {
    RunTranslates(ws, lives, ops, n);
    TranslatesAll(ws[n], lives[n], vaddr);
  }

  function UnmapAll(w: Window, vs: seq<nat>): Window
    requires |w.entries| == KERNEL_PAGE_FRAMES && forall i :: 0 <= i < |vs| ==> vs[i] < WORD_RANGE
    decreases |vs|
  {
    if vs == [] then w else UnmapAll(Unmap(w, vs[0]), vs[1..])
  }

  // Unmapping all that is mapped, in any order, restores the base.
  lemma {:induction false} UnmapAllRestores(w: Window, vs: seq<nat>)
    requires Inv(w) && forall i :: 0 <= i < |vs| ==> vs[i] < WORD_RANGE
    requires forall i: nat :: IsMapped(w, i) ==> Address(i) in vs
    ensures Inv(UnmapAll(w, vs)) && UnmapAll(w, vs).top == LOWMEM_PAGE_FRAMES
    decreases |vs|
  {
    if vs == [] {
      assert !IsMapped(w, w.top - 1);
    } else {
      if vs[0] >= KMAP_OFFSET { UnmapRemoves(w, vs[0]); }
      var z := Unmap(w, vs[0]);
      forall i: nat | IsMapped(z, i) ensures Address(i) in vs[1..] {
        assert IsMapped(w, i);
        assert IndexOf(Address(i)) == i && Address(i) >= KMAP_OFFSET;
        var k :| 0 <= k < |vs| && vs[k] == Address(i);
        assert k > 0;
        assert vs[1..][k - 1] == Address(i);
      }
      UnmapAllRestores(z, vs[1..]);
    }
  }

  /* The code */

  class KernelMap {
    const table: array<nat>
    var top: nat

    ghost predicate Valid()
      reads this, table
    {
      table.Length == KERNEL_PAGE_FRAMES && Inv(Now())
    }

    ghost function Now(): Window
      reads this, table
    {
      Window(table[..], top)
    }

    // The table as boot.S leaves it: cleared, then the entries of low memory filled in.
    constructor ()
      ensures Valid() && top == LOWMEM_PAGE_FRAMES && fresh(table)
    {
      table := new nat[KERNEL_PAGE_FRAMES](_ => 0);
      top := LOWMEM_PAGE_FRAMES;
      new;
      FillLowMemory();
      PresentMeaning(0);
    }

    method FillLowMemory()
      requires table.Length == KERNEL_PAGE_FRAMES
      modifies table
      ensures forall i :: 0 <= i < LOWMEM_PAGE_FRAMES ==> table[i] == DirectEntry(i)
      ensures forall i :: LOWMEM_PAGE_FRAMES <= i < KERNEL_PAGE_FRAMES ==> table[i] == old(table[i])
    {
      var entry := PTE_INIT_ATTR;
      for i := 0 to LOWMEM_PAGE_FRAMES
        invariant entry == DirectEntry(i)
        invariant forall k :: 0 <= k < i ==> table[k] == DirectEntry(k)
        invariant forall k :: i <= k < KERNEL_PAGE_FRAMES ==> table[k] == old(table[k])
      {
        table[i] := entry;
        entry := entry + PAGE_SIZE;
      }
    }

    method Kmap(paddr: nat, flags: nat) returns (vaddr: nat)
      requires Valid() && Legal(Now(), MapOp(paddr, flags))
      modifies this, table
      ensures Valid() && (Now(), vaddr) == Map(old(Now()), paddr, flags)
    {
      if paddr < KMAP_OFFSET - PAGE_OFFSET {
        return PAGE_OFFSET + paddr;
      }
      MapAdds(Now(), paddr, flags);
      var pe := top;
      top := top + 1;
      table[pe] := CreateTableEntry(paddr, Or(flags, PTE_PRESENT));
      return PAGE_OFFSET + pe * PAGE_SIZE;
    }

    method Kunmap(vaddr: nat)
      requires Valid() && vaddr < WORD_RANGE
      modifies this, table
      ensures Valid() && Now() == Unmap(old(Now()), vaddr)
    {
      if vaddr < KMAP_OFFSET {
        return;
      }
      UnmapRemoves(Now(), vaddr);
      var pe := (vaddr - PAGE_OFFSET) / PAGE_SIZE;
      table[pe] := CreateTableEntry(0, 0);
      if pe + 1 != top {
        return;
      }
      while !Present(table[pe])
        invariant LOWMEM_PAGE_FRAMES <= pe < table.Length
        invariant Retreat(table[..], pe + 1) == Retreat(table[..], top)
        decreases pe
      {
        if pe == LOWMEM_PAGE_FRAMES {
          // the pointer drops below the window
          top := LOWMEM_PAGE_FRAMES;
          return;
        }
        pe := pe - 1;
      }
      top := pe + 1;
    }
  }
}
