/**
 kernel/arch/x86/setup_page_alloc.c: what init_zone makes of a zone with the answers
 that boot_mem_is_free gives to its calls.
 */
module Setup {
  import opened Words
  import opened Buddy
  import opened PageOrders
  import Boot = BootMem

  // isFree is the answer to the call of init_zone, which passes PAGE_SIZE as the end.
  ghost predicate AsAsked(mem: seq<Boot.Range>, res: seq<Boot.Range>, lo: nat, hi: nat, isFree: nat -> bool) {
    forall pfn: nat :: lo <= pfn < hi ==> (isFree(pfn) <==> Boot.IsFreeVerdict(mem, res, pfn * PAGE_SIZE, PAGE_SIZE))
  }

  // Whatever is reserved or missing, every frame of the zone but frame 0 ends up free;
  // frame 0 does exactly when it is reserved or missing.
  lemma ReservationsIgnored(mem: seq<Boot.Range>, res: seq<Boot.Range>, order: seq<int>, lo: nat, hi: nat, isFree: nat -> bool)
    requires lo <= hi <= |order| && hi * PAGE_SIZE <= WORD_RANGE && AsAsked(mem, res, lo, hi, isFree)
    ensures var s := Initialised(order, lo, hi, isFree).zone;
            Inv(s) && forall x: nat :: x in s.free <==> lo <= x < hi && (x > 0 || !Boot.RangeFree(mem, res, 0, PAGE_SIZE))
  {
    InitialisedMeaning(order, lo, hi, isFree);
    forall x: nat | lo <= x < hi ensures isFree(x) <==> x > 0 || !Boot.RangeFree(mem, res, 0, PAGE_SIZE) {
      Boot.FrameVerdict(mem, res, x);
    }
  }
}
