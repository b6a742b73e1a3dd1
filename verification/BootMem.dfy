/**
 The boot-time range allocator of kernel/bootmem.c: arrays of address ranges kept
 sorted by insertion and merging, and a first-fit search over them.
 */
module BootMem {
  import opened Bits
  import opened Words

  datatype Range = Range(begin: nat, end: nat)

  predicate Holds(r: Range, x: int) {
    r.begin <= x < r.end
  }

  ghost predicate Covered(s: seq<Range>, x: int) {
    exists i :: 0 <= i < |s| && Holds(s[i], x)
  }

  // Non-empty ranges, strictly sorted by their first address. They may overlap.
  ghost predicate Sorted(s: seq<Range>) {
    && (forall i :: 0 <= i < |s| ==> s[i].begin < s[i].end)
    && (forall i, j :: 0 <= i < j < |s| ==> s[i].begin < s[j].begin)
  }

  // Sorted, and with a gap between any two ranges.
  ghost predicate Canonical(s: seq<Range>) {
    Sorted(s) && forall i, j :: 0 <= i < j < |s| ==> s[i].end < s[j].begin
  }

  /* Adding a range */

  function Merge(dst: Range, src: Range): Range {
    Range(Min(src.begin, dst.begin), Max(src.end, dst.end))
  }

  predicate Overlap(l: Range, r: Range) {
    || (l.begin <= r.begin && r.begin <= l.end)
    || (l.begin <= r.end && r.end <= l.end)
  }

  // The first range at or after position i that ends at or after `begin`.
  function FirstFrom(s: seq<Range>, begin: nat, i: nat): (r: nat)
    requires i <= |s|
    ensures i <= r <= |s| && (r < |s| ==> s[r].end >= begin)
    ensures forall j :: i <= j < r ==> s[j].end < begin
    decreases |s| - i
  {
    if i < |s| && s[i].end < begin then FirstFrom(s, begin, i + 1) else i
  }

  // s with the ranges from position i up to j replaced by r.
  function Splice(s: seq<Range>, i: nat, r: Range, j: nat): seq<Range>
    requires i <= j <= |s|
  {
    s[..i] + [r] + s[j..]
  }

  // An array shifted up by one from i on, with r at i.
  lemma ShiftedSplice(s: seq<Range>, i: nat, r: Range, t: seq<Range>)
    requires i <= |s| && |t| == |s| + 1 && t[i] == r
    requires forall k :: 0 <= k < i ==> t[k] == s[k]
    requires forall k :: i < k < |t| ==> t[k] == s[k - 1]
    ensures t == Splice(s, i, r, i)
  {
  }

  lemma ReplacedSplice(s: seq<Range>, i: nat, m: Range)
    requires i < |s|
    ensures s[i := m] == Splice(s, i, m, i + 1)
  {
  }

  lemma SwallowedSplice(s: seq<Range>, i: nat, m: Range)
    requires i + 1 < |s|
    ensures s[i := m][..i + 1] + s[i := m][i + 2..] == Splice(s, i, m, i + 2)
  {
  }

  // s with range i replaced by m, and the next range swallowed if m overlaps it.
  function Merged(s: seq<Range>, i: nat, m: Range): seq<Range>
    requires i < |s|
  {
    if i + 1 < |s| && Overlap(m, s[i + 1]) then Splice(s, i, Merge(m, s[i + 1]), i + 2) else Splice(s, i, m, i + 1)
  }

  // The array after adding [begin, end), and whether there was room.
  function AddRange(s: seq<Range>, capacity: nat, begin: nat, end: nat): (seq<Range>, bool) {
    if end <= begin then (s, true)
    else
      var r := Range(begin, end);
      var i := FirstFrom(s, begin, 0);
      if i < |s| && Overlap(s[i], r) then (Merged(s, i, Merge(s[i], r)), true)
      else if |s| == capacity then (s, false)
      else (Splice(s, i, r, i), true)
  }

  lemma MergeCovers(l: Range, r: Range, x: int)
    requires l.begin < l.end && r.begin < r.end && Overlap(l, r)
    ensures Holds(Merge(l, r), x) <==> Holds(l, x) || Holds(r, x)
  {
  }

  // Success adds exactly [begin, end) to what is covered, also when the range swallows
  // several old ones; failure changes nothing.
  lemma AddIsUnion(s: seq<Range>, capacity: nat, begin: nat, end: nat)
    requires Sorted(s)
    ensures var (t, ok) := AddRange(s, capacity, begin, end);
            if ok then forall x :: Covered(t, x) <==> Covered(s, x) || begin <= x < end
            else t == s && |s| == capacity
  {
    var (t, ok) := AddRange(s, capacity, begin, end);
    if ok && begin < end {
      forall x ensures Covered(t, x) <==> Covered(s, x) || begin <= x < end {
        AddCovers(s, capacity, begin, end, x);
      }
    }
  }

  // Range i is the first that ends at or after `begin`.
  ghost predicate FirstReached(s: seq<Range>, begin: nat, i: nat) {
    i < |s| && s[i].end >= begin && forall j :: 0 <= j < i ==> s[j].end < begin
  }

  // A range is refused exactly when the array is full and the first old range it reaches
  // begins behind it or is strictly swallowed; otherwise an old range grows.
  lemma RefusedIff(s: seq<Range>, capacity: nat, begin: nat, end: nat)
    ensures !AddRange(s, capacity, begin, end).1 <==>
              begin < end && |s| == capacity
              && forall i: nat :: FirstReached(s, begin, i) ==> end < s[i].begin || (begin < s[i].begin && s[i].end < end)
  {
    var i := FirstFrom(s, begin, 0);
    assert i < |s| ==> FirstReached(s, begin, i);
    assert forall k: nat :: FirstReached(s, begin, k) ==> k == i;
  }

  lemma AddCovers(s: seq<Range>, capacity: nat, begin: nat, end: nat, x: int)
    requires Sorted(s) && begin < end && AddRange(s, capacity, begin, end).1
    ensures Covered(AddRange(s, capacity, begin, end).0, x) <==> Covered(s, x) || begin <= x < end
  {
    var t := AddRange(s, capacity, begin, end).0;
    var r := Range(begin, end);
    var i := FirstFrom(s, begin, 0);
    if i < |s| && Overlap(s[i], r) {
      MergeCovers(s[i], r, x);
      MergedCovers(s, i, Merge(s[i], r), x);
    } else {
      SpliceCovers(s, i, r, i, x);
    }
  }

  lemma SpliceCovers(s: seq<Range>, i: nat, r: Range, j: nat, x: int)
    requires i <= j <= |s| && forall k :: i <= k < j && Holds(s[k], x) ==> Holds(r, x)
    ensures Covered(Splice(s, i, r, j), x) <==> Covered(s, x) || Holds(r, x)
  {
    var t := Splice(s, i, r, j);
    assert t[i] == r;
    forall k | 0 <= k < |s| && !(i <= k < j) ensures s[k] == t[if k < i then k else k - j + i + 1] {}
    forall k | 0 <= k < |t| && k != i ensures t[k] == s[if k < i then k else k + j - i - 1] {}
  }

  lemma MergedCovers(s: seq<Range>, i: nat, m: Range, x: int)
    requires Sorted(s) && i < |s| && m.begin < m.end && (Holds(s[i], x) ==> Holds(m, x))
    ensures Covered(Merged(s, i, m), x) <==> Covered(s, x) || Holds(m, x)
  {
    if i + 1 < |s| && Overlap(m, s[i + 1]) {
      MergeCovers(m, s[i + 1], x);
      SpliceCovers(s, i, Merge(m, s[i + 1]), i + 2, x);
      assert Holds(s[i + 1], x) ==> Covered(s, x);
    } else {
      SpliceCovers(s, i, m, i + 1, x);
    }
  }

  lemma SpliceSorted(s: seq<Range>, i: nat, r: Range, j: nat)
    requires Sorted(s) && i <= j <= |s| && r.begin < r.end
    requires i > 0 ==> s[i - 1].begin < r.begin
    requires j < |s| ==> r.begin < s[j].begin
    ensures Sorted(Splice(s, i, r, j))
  {
    var t := Splice(s, i, r, j);
    forall k | 0 <= k < |t| && k != i ensures t[k] == s[if k < i then k else k + j - i - 1] {}
    assert i > 0 ==> forall k :: 0 <= k < i ==> s[k].begin <= s[i - 1].begin;
    assert j < |s| ==> forall k :: j <= k < |s| ==> s[j].begin <= s[k].begin;
  }

  lemma SpliceCanonical(s: seq<Range>, i: nat, r: Range, j: nat)
    requires Canonical(s) && i <= j <= |s| && Sorted(Splice(s, i, r, j))
    ensures Canonical(Splice(s, i, r, j)) <==>
              (i > 0 ==> s[i - 1].end < r.begin) && (j < |s| ==> r.end < s[j].begin)
  {
    var t := Splice(s, i, r, j);
    assert t[i] == r && (i > 0 ==> t[i - 1] == s[i - 1]) && (j < |s| ==> t[i + 1] == s[j]);
    forall k | 0 <= k < |t| && k != i ensures t[k] == s[if k < i then k else k + j - i - 1] {}
    assert i > 0 ==> forall k :: 0 <= k < i ==> s[k].end <= s[i - 1].end;
    assert j < |s| ==> forall k :: j <= k < |s| ==> s[j].begin <= s[k].begin;
  }

  lemma MergedSorted(s: seq<Range>, i: nat, m: Range)
    requires Sorted(s) && i < |s| && m.begin < m.end && m.begin <= s[i].begin
    requires i > 0 ==> s[i - 1].begin < m.begin
    ensures Sorted(Merged(s, i, m))
  {
    if i + 1 < |s| && Overlap(m, s[i + 1]) {
      SpliceSorted(s, i, Merge(m, s[i + 1]), i + 2);
    } else {
      SpliceSorted(s, i, m, i + 1);
    }
  }

  lemma AddKeepsSorted(s: seq<Range>, capacity: nat, begin: nat, end: nat)
    requires Sorted(s)
    ensures Sorted(AddRange(s, capacity, begin, end).0)
  {
    if begin < end {
      var r := Range(begin, end);
      var i := FirstFrom(s, begin, 0);
      if i < |s| && Overlap(s[i], r) {
        MergedSorted(s, i, Merge(s[i], r));
      } else {
        SpliceSorted(s, i, r, i);
      }
    }
  }

  // Gaps survive unless the range strictly swallows the first range it touches, or
  // reaches a third one.
  predicate KeepsGaps(s: seq<Range>, begin: nat, end: nat) {
    var i := FirstFrom(s, begin, 0);
    end <= begin || i == |s| || end < s[i].begin
    || (!(begin < s[i].begin && s[i].end < end) && (i + 2 < |s| ==> end < s[i + 2].begin))
  }

  lemma MergedCanonical(s: seq<Range>, i: nat, m: Range)
    requires Canonical(s) && i < |s| && m.begin <= s[i].begin && (i > 0 ==> s[i - 1].end < m.begin)
    requires Sorted(Merged(s, i, m))
    ensures Canonical(Merged(s, i, m)) <==>
              if i + 1 < |s| && Overlap(m, s[i + 1]) then i + 2 < |s| ==> Merge(m, s[i + 1]).end < s[i + 2].begin
              else i + 1 < |s| ==> m.end < s[i + 1].begin
  {
    if i + 1 < |s| && Overlap(m, s[i + 1]) {
      SpliceCanonical(s, i, Merge(m, s[i + 1]), i + 2);
    } else {
      SpliceCanonical(s, i, m, i + 1);
    }
  }

  lemma CanonicalKeptIff(s: seq<Range>, capacity: nat, begin: nat, end: nat)
    requires Canonical(s) && AddRange(s, capacity, begin, end).1
    ensures Canonical(AddRange(s, capacity, begin, end).0) <==> KeepsGaps(s, begin, end)
  {
    AddKeepsSorted(s, capacity, begin, end);
    if begin < end {
      var r := Range(begin, end);
      var i := FirstFrom(s, begin, 0);
      if i < |s| && Overlap(s[i], r) {
        MergedCanonical(s, i, Merge(s[i], r));
      } else {
        SpliceCanonical(s, i, r, i);
      }
    }
  }

  // Two adds after which the ranges overlap.
  lemma SwallowingBreaksGaps()
    ensures AddRange([Range(10, 20)], 128, 5, 30) == ([Range(5, 30), Range(10, 20)], true)
    ensures Canonical([Range(10, 20)]) && !Canonical([Range(5, 30), Range(10, 20)])
  {
    assert [Range(10, 20)][..0] + [Range(5, 30)] + [Range(10, 20)][0..] == [Range(5, 30), Range(10, 20)];
    var t := [Range(5, 30), Range(10, 20)];
    assert t[0].end >= t[1].begin;
  }

  // Ranges disjoint from everything covered (touching allowed) always keep the gaps.
  lemma DisjointKeepsGaps(s: seq<Range>, begin: nat, end: nat)
    requires Canonical(s) && forall x :: begin <= x < end ==> !Covered(s, x)
    ensures KeepsGaps(s, begin, end)
  {
    var i := FirstFrom(s, begin, 0);
    if begin < end && i < |s| {
      assert Holds(s[i], s[i].begin) && Covered(s, s[i].begin);
      if i + 2 < |s| {
        assert Holds(s[i + 1], s[i + 1].begin) && Covered(s, s[i + 1].begin);
      }
    }
  }

  // Any number of adds, in any order and shape.
  function AddAll(s: seq<Range>, capacity: nat, adds: seq<Range>): seq<Range>
    decreases |adds|
  {
    if adds == [] then s else AddAll(AddRange(s, capacity, adds[0].begin, adds[0].end).0, capacity, adds[1..])
  }

  // Some add that found room covers x.
  ghost predicate Accepted(s: seq<Range>, capacity: nat, adds: seq<Range>, x: int)
    decreases |adds|
  {
    adds != []
    && var (t, ok) := AddRange(s, capacity, adds[0].begin, adds[0].end);
       (ok && Holds(adds[0], x)) || Accepted(t, capacity, adds[1..], x)
  }

  // After any run of adds the array is sorted and covers exactly what it covered
  // before together with every accepted range.
  lemma {:induction false} AddAllIsUnion(s: seq<Range>, capacity: nat, adds: seq<Range>)
    requires Sorted(s)
    ensures Sorted(AddAll(s, capacity, adds))
    ensures forall x :: Covered(AddAll(s, capacity, adds), x) <==> Covered(s, x) || Accepted(s, capacity, adds, x)
    decreases |adds|
  {
    if adds != [] {
      AddKeepsSorted(s, capacity, adds[0].begin, adds[0].end);
      AddIsUnion(s, capacity, adds[0].begin, adds[0].end);
      AddAllIsUnion(AddRange(s, capacity, adds[0].begin, adds[0].end).0, capacity, adds[1..]);
    }
  }

  /* Searching */

  // Unsigned addition of machine addresses.
  function Plus(a: nat, b: nat): nat {
    U32(a + b)
  }

  function AlignUp(x: nat, a: nat): nat
    requires a >= 1
  {
    AndNot(Plus(x, a - 1), a - 1)
  }

  ghost predicate IsPow2(a: nat) {
    exists k: nat :: a == Pow2(k)
  }

  lemma AlignUpBounds(x: nat, a: nat)
    requires IsPow2(a) && x + a <= WORD_RANGE
    ensures a >= 1 && x <= AlignUp(x, a) < x + a && AlignUp(x, a) % a == 0
  {
    var k: nat :| a == Pow2(k);
    AlignUpIsBase(x, k);
    BaseBounds(x + a - 1, k);
    BaseMultiple(x + a - 1, k);
  }

  lemma AlignUpIsBase(x: nat, k: nat)
    requires x + Pow2(k) <= WORD_RANGE
    ensures AlignUp(x, Pow2(k)) == Base(x + Pow2(k) - 1, k)
  {
    NoWrap(x, Pow2(k) - 1);
    MaskRounds(x + Pow2(k) - 1, k);
  }

  lemma NoWrap(a: nat, b: nat)
    requires a + b < WORD_RANGE
    ensures Plus(a, b) == a + b
  {
  }

  // Without wrap-around, align_up gives the least multiple of a at or above x.
  lemma AlignUpLeast(x: nat, a: nat, y: nat)
    requires IsPow2(a) && x + a <= WORD_RANGE
    ensures a >= 1 && x <= AlignUp(x, a) && AlignUp(x, a) % a == 0
    ensures x <= y && y % a == 0 ==> AlignUp(x, a) <= y
  {
    AlignUpBounds(x, a);
    if y % a == 0 {
      MultiplesApart(y, AlignUp(x, a), a);
    }
  }

  // [a, a + size) is aligned memory inside [from, to) that nothing reserves.
  ghost predicate Fits(mem: seq<Range>, res: seq<Range>, size: nat, align: nat, from: nat, to: nat, a: nat) {
    && align >= 1 && a % align == 0 && from <= a && a + size <= to
    && forall x :: a <= x < a + size ==> Covered(mem, x) && !Covered(res, x)
  }

  // The least such address at or above a, or `to`.
  ghost function FirstFit(mem: seq<Range>, res: seq<Range>, size: nat, align: nat, from: nat, to: nat, a: nat): nat
    decreases (to as int) - (a as int)
  {
    if a >= to then to
    else if Fits(mem, res, size, align, from, to, a) then a
    else FirstFit(mem, res, size, align, from, to, a + 1)
  }

  lemma {:induction false} FirstFitLeast(mem: seq<Range>, res: seq<Range>, size: nat, align: nat, from: nat, to: nat,
                                         a: nat, r: nat)
    requires a <= r <= to && (r < to ==> Fits(mem, res, size, align, from, to, r))
    requires forall b: nat :: a <= b < r ==> !Fits(mem, res, size, align, from, to, b)
    ensures FirstFit(mem, res, size, align, from, to, a) == r
    decreases r - a
  {
    if a < r {
      FirstFitLeast(mem, res, size, align, from, to, a + 1, r);
    }
  }

  // What boot_mem_find returns: the two early exits, then first fit.
  ghost function Found(mem: seq<Range>, res: seq<Range>, size: nat, align: nat, from: nat, to: nat): nat {
    if from > to || size > to - from then to
    else if size == 0 then from
    else FirstFit(mem, res, size, align, from, to, from)
  }

  lemma {:induction false} FirstFitMeaning(mem: seq<Range>, res: seq<Range>, size: nat, align: nat,
                                           from: nat, to: nat, a: nat)
    requires a <= to
    ensures var r := FirstFit(mem, res, size, align, from, to, a);
            a <= r <= to && (r < to ==> Fits(mem, res, size, align, from, to, r))
    ensures forall b: nat :: a <= b < FirstFit(mem, res, size, align, from, to, a) ==>
              !Fits(mem, res, size, align, from, to, b)
    decreases (to as int) - (a as int)
  {
    if a < to && !Fits(mem, res, size, align, from, to, a) {
      FirstFitMeaning(mem, res, size, align, from, to, a + 1);
    }
  }

  // For a non-empty request: the least fit when there is one, else `to`.
  lemma FoundMeaning(mem: seq<Range>, res: seq<Range>, size: nat, align: nat, from: nat, to: nat)
    requires size > 0
    ensures var r := Found(mem, res, size, align, from, to);
            (r != to <==> exists a: nat :: Fits(mem, res, size, align, from, to, a))
            && (r != to ==> Fits(mem, res, size, align, from, to, r))
            && forall a: nat :: Fits(mem, res, size, align, from, to, a) ==> r <= a
  {
    if from <= to && size <= to - from {
      FirstFitMeaning(mem, res, size, align, from, to, from);
    }
  }

  /* Why the two-pointer search skips nothing. NoFitBelow says that the addresses
     below a limit have been ruled out. */

  ghost predicate NoFitBelow(mem: seq<Range>, res: seq<Range>, size: nat, align: nat, from: nat, to: nat, limit: nat) {
    forall a: nat :: a < limit ==> !Fits(mem, res, size, align, from, to, a)
  }

  // No block starts in the gap in front of memory range i.
  lemma GapHoldsNoFit(mem: seq<Range>, res: seq<Range>, size: nat, align: nat, from: nat, to: nat, i: nat)
    requires Canonical(mem) && size > 0 && i <= |mem|
    requires NoFitBelow(mem, res, size, align, from, to, if i == 0 then 0 else mem[i - 1].end)
    ensures i < |mem| ==> NoFitBelow(mem, res, size, align, from, to, mem[i].begin)
    ensures i == |mem| ==> NoFitBelow(mem, res, size, align, from, to, to)
  {
    forall a: nat | (i < |mem| ==> a < mem[i].begin) && (i > 0 ==> mem[i - 1].end <= a)
      ensures !Covered(mem, a) && !Fits(mem, res, size, align, from, to, a)
    {
      assert i > 0 ==> forall k :: 0 <= k < i ==> mem[k].end <= mem[i - 1].end;
      assert i < |mem| ==> forall k :: i <= k < |mem| ==> mem[i].begin <= mem[k].begin;
      assert Fits(mem, res, size, align, from, to, a) ==> Covered(mem, a);
    }
  }

  // A block that starts in memory range i and does not end there leaves the memory.
  lemma OverrunHoldsNoFit(mem: seq<Range>, res: seq<Range>, size: nat, align: nat, from: nat, to: nat,
                          i: nat, begin: nat)
    requires Canonical(mem) && size > 0 && i < |mem| && mem[i].begin <= begin
    requires NoFitBelow(mem, res, size, align, from, to, begin)
    requires begin + size > Min(mem[i].end, to)
    ensures NoFitBelow(mem, res, size, align, from, to, mem[i].end)
  {
    assert !Covered(mem, mem[i].end);
    forall a: nat | begin <= a < mem[i].end ensures !Fits(mem, res, size, align, from, to, a) {
      assert a + size <= to ==> a <= mem[i].end < a + size;
    }
  }

  // A reserved range that meets the candidate rules out every start before its end.
  lemma ConflictHoldsNoFit(mem: seq<Range>, res: seq<Range>, size: nat, align: nat, from: nat, to: nat,
                           j: nat, begin: nat)
    requires Sorted(res) && size > 0 && j < |res| && res[j].begin < begin + size
    requires NoFitBelow(mem, res, size, align, from, to, begin)
    ensures NoFitBelow(mem, res, size, align, from, to, res[j].end)
  {
    forall a: nat | begin <= a < res[j].end ensures !Fits(mem, res, size, align, from, to, a) {
      var x := Max(a, res[j].begin);
      assert Holds(res[j], x) && Covered(res, x);
      assert a <= x < a + size;
    }
  }

  lemma UnalignedHoldsNoFit(mem: seq<Range>, res: seq<Range>, size: nat, align: nat, from: nat, to: nat, begin: nat)
    requires IsPow2(align) && begin + align <= WORD_RANGE
    requires NoFitBelow(mem, res, size, align, from, to, begin)
    ensures align >= 1 && NoFitBelow(mem, res, size, align, from, to, AlignUp(begin, align))
  {
    AlignUpBounds(begin, align);
    forall a: nat | begin <= a < AlignUp(begin, align) ensures !Fits(mem, res, size, align, from, to, a) {
      AlignUpLeast(begin, align, a);
    }
  }

  // The candidate fits: it lies in memory range i, the reserved ranges below the
  // cursor end before it, those from the cursor on begin behind it.
  lemma CandidateFits(mem: seq<Range>, res: seq<Range>, size: nat, align: nat, from: nat, to: nat,
                      i: nat, j: nat, begin: nat)
    requires i < |mem| && mem[i].begin <= begin && begin + size <= Min(mem[i].end, to) && from <= begin
    requires align >= 1 && begin % align == 0
    requires Sorted(res) && j <= |res| && forall m :: 0 <= m < j ==> res[m].end <= begin
    requires j < |res| ==> res[j].begin >= begin + size
    ensures Fits(mem, res, size, align, from, to, begin)
  {
    forall x | begin <= x < begin + size ensures Covered(mem, x) && !Covered(res, x) {
      assert Holds(mem[i], x);
      assert j < |res| ==> forall m :: j <= m < |res| ==> res[j].begin <= res[m].begin;
    }
  }

  /* The arrays */

  class RangeArray {
    const ranges: array<Range>
    var size: nat

    ghost predicate Valid()
      reads this
    {
      size <= ranges.Length
    }

    ghost function Contents(): seq<Range>
      reads this, ranges
      requires Valid()
    {
      ranges[..size]
    }

    constructor (capacity: nat)
      ensures Valid() && Contents() == [] && ranges.Length == capacity && fresh(ranges)
    {
      ranges := new Range[capacity](_ => Range(0, 0));
      size := 0;
    }

    method Remove(at: nat)
      requires Valid() && at < size
      modifies this, ranges
      ensures Valid() && Contents() == old(Contents())[..at] + old(Contents())[at + 1..]
    {
      var i := at;
      while i + 1 < size
        invariant at <= i < size && size == old(size)
        invariant forall k :: 0 <= k < ranges.Length ==>
          ranges[k] == if at <= k < i then old(ranges[k + 1]) else old(ranges[k])
      {
        ranges[i] := ranges[i + 1];
        i := i + 1;
      }
      size := size - 1;
    }

    // Moves the ranges from `at` on one place up.
    method ShiftUp(at: nat)
      requires at <= size < ranges.Length
      modifies ranges
      ensures forall k :: 0 <= k < at ==> ranges[k] == old(ranges[k])
      ensures forall k :: at < k <= size ==> ranges[k] == old(ranges[k - 1])
    {
      var j := size;
      while j > at
        invariant at <= j <= size
        invariant forall k :: 0 <= k < j ==> ranges[k] == old(ranges[k])
        invariant forall k :: j < k <= size ==> ranges[k] == old(ranges[k - 1])
      {
        ranges[j] := ranges[j - 1];
        j := j - 1;
      }
    }

    method Insert(range: Range, at: nat) returns (ok: bool)
      requires Valid() && at <= size
      modifies this, ranges
      ensures Valid() && ok == (old(size) < ranges.Length)
      ensures Contents() == if ok then Splice(old(Contents()), at, range, at) else old(Contents())
    {
      if size == ranges.Length {
        return false;
      }
      ShiftUp(at);
      ranges[at] := range;
      size := size + 1;
      ShiftedSplice(old(Contents()), at, range, Contents());
      return true;
    }

    // Merges the range into position i, and the next range too if they now overlap.
    method MergeAt(range: Range, i: nat)
      requires Valid() && i < size
      modifies this, ranges
      ensures Valid() && Contents() == Merged(old(Contents()), i, Merge(old(Contents())[i], range))
    {
      ghost var s, m := Contents(), Merge(ranges[i], range);
      ranges[i] := Merge(ranges[i], range);
      assert Contents() == s[i := m];
      ReplacedSplice(s, i, m);
      if i + 1 != size && Overlap(ranges[i], ranges[i + 1]) {
        ranges[i] := Merge(ranges[i], ranges[i + 1]);
        assert Contents() == s[i := Merge(m, s[i + 1])];
        SwallowedSplice(s, i, Merge(m, s[i + 1]));
        Remove(i + 1);
      }
    }

    method Add(begin: nat, end: nat) returns (ok: bool)
      requires Valid()
      modifies this, ranges
      ensures Valid() && (Contents(), ok) == AddRange(old(Contents()), ranges.Length, begin, end)
    {
      if end <= begin {
        return true;
      }
      var range := Range(begin, end);
      var i := 0;
      while i != size
        invariant i <= size && FirstFrom(Contents(), begin, i) == FirstFrom(Contents(), begin, 0)
      {
        if ranges[i].end >= begin {
          break;
        }
        i := i + 1;
      }
      assert i == FirstFrom(Contents(), begin, 0);
      if i != size && Overlap(ranges[i], range) {
        MergeAt(range, i);
        return true;
      }
      ok := Insert(range, i);
    }
  }

  // The search proper runs; otherwise boot_mem_find leaves early.
  predicate Searches(size: nat, from: nat, to: nat) {
    from <= to && 0 < size <= to - from
  }

  // What the search relies on: sorted arrays, a power of two, addresses that do not wrap.
  ghost predicate Searchable(mem: seq<Range>, res: seq<Range>, size: nat, align: nat, to: nat) {
    Canonical(mem) && Sorted(res) && IsPow2(align) && to + align + size <= WORD_RANGE
  }

  // Addresses below `begin` are ruled out, and so are the reserved ranges below j:
  // they end before anything that is still to be tried in memory range i or later.
  ghost predicate Progress(mem: seq<Range>, res: seq<Range>, size: nat, align: nat, from: nat, to: nat,
                           i: nat, j: nat, begin: nat) {
    && i < |mem| && j <= |res| && mem[i].begin <= begin && from <= begin
    && NoFitBelow(mem, res, size, align, from, to, begin)
    && forall m :: 0 <= m < j ==> res[m].end <= begin && res[m].end <= mem[i].end
  }

  // The same between two memory ranges.
  ghost predicate RangeStart(mem: seq<Range>, res: seq<Range>, size: nat, align: nat, from: nat, to: nat,
                             i: nat, j: nat) {
    && i <= |mem| && j <= |res|
    && NoFitBelow(mem, res, size, align, from, to, if i == |mem| then to else mem[i].begin)
    && (i < |mem| ==> forall m :: 0 <= m < j ==> res[m].end <= mem[i].begin)
  }

  lemma NoFitFromTo(mem: seq<Range>, res: seq<Range>, size: nat, align: nat, from: nat, to: nat, limit: nat)
    requires size > 0 && NoFitBelow(mem, res, size, align, from, to, limit) && limit >= to
    ensures forall a: nat :: !Fits(mem, res, size, align, from, to, a)
  {
  }

  lemma NextRange(mem: seq<Range>, res: seq<Range>, size: nat, align: nat, from: nat, to: nat, i: nat, j: nat)
    requires Searchable(mem, res, size, align, to) && size > 0 && i < |mem| && j <= |res|
    requires NoFitBelow(mem, res, size, align, from, to, mem[i].end)
    requires forall m :: 0 <= m < j ==> res[m].end <= mem[i].end
    ensures RangeStart(mem, res, size, align, from, to, i + 1, j)
  {
    GapHoldsNoFit(mem, res, size, align, from, to, i + 1);
  }

  class BootMem {
    const memory: RangeArray
    const reserved: RangeArray

    ghost predicate Valid()
      reads memory, reserved
    {
      memory != reserved && memory.ranges != reserved.ranges && memory.Valid() && reserved.Valid()
    }

    ghost function Mem(): seq<Range>
      reads memory, memory.ranges
      requires memory.Valid()
    {
      memory.Contents()
    }

    ghost function Res(): seq<Range>
      reads reserved, reserved.ranges
      requires reserved.Valid()
    {
      reserved.Contents()
    }

    constructor (capacity: nat)
      ensures Valid() && Mem() == [] && Res() == []
      ensures memory.ranges.Length == reserved.ranges.Length == capacity
    {
      memory := new RangeArray(capacity);
      reserved := new RangeArray(capacity);
    }

    // The least suitable address, by one pass over memory and one shared pass over
    // the reserved ranges.
    method Find(size: nat, align: nat, from: nat, to: nat) returns (r: nat)
      requires Valid()
      requires Searches(size, from, to) ==> Searchable(Mem(), Res(), size, align, to)
      ensures r == Found(Mem(), Res(), size, align, from, to)
    {
      if from > to || size > to - from {
        return to;
      }
      if size == 0 {
        return from;
      }
      GapHoldsNoFit(Mem(), Res(), size, align, from, to, 0);
      var i, j := 0, 0;
      while i != memory.size
        invariant RangeStart(Mem(), Res(), size, align, from, to, i, j)
        decreases memory.size - i
      {
        if memory.ranges[i].end <= from {
          NextRange(Mem(), Res(), size, align, from, to, i, j);
          i := i + 1;
          continue;
        }
        if memory.ranges[i].begin >= to {
          break;
        }
        var end := Min(memory.ranges[i].end, to);
        var begin := Max(memory.ranges[i].begin, from);
        var found;
        found, r, j := SearchRange(size, align, from, to, i, j, begin, end);
        if found {
          FirstFitLeast(Mem(), Res(), size, align, from, to, from, r);
          return r;
        }
        NextRange(Mem(), Res(), size, align, from, to, i, j);
        i := i + 1;
      }
      NoFitFromTo(Mem(), Res(), size, align, from, to, if i == |Mem()| then to else Mem()[i].begin);
      FirstFitLeast(Mem(), Res(), size, align, from, to, from, to);
      return to;
    }

    // The inner loop: tries addresses inside memory range i.
    method SearchRange(size: nat, align: nat, from: nat, to: nat, ghost i: nat, j0: nat, begin0: nat, end: nat)
      returns (found: bool, addr: nat, j: nat)
      requires Valid() && Searches(size, from, to) && Searchable(Mem(), Res(), size, align, to)
      requires Progress(Mem(), Res(), size, align, from, to, i, j0, begin0)
      requires end == Min(Mem()[i].end, to)
      ensures j <= |Res()|
      ensures found ==> Fits(Mem(), Res(), size, align, from, to, addr)
                        && NoFitBelow(Mem(), Res(), size, align, from, to, addr)
      ensures !found ==> NoFitBelow(Mem(), Res(), size, align, from, to, Mem()[i].end)
                         && forall m :: 0 <= m < j ==> Res()[m].end <= Mem()[i].end
    {
      var begin := begin0;
      j := j0;
      while begin < end
        invariant Progress(Mem(), Res(), size, align, from, to, i, j, begin)
        decreases end - begin
      {
        UnalignedHoldsNoFit(Mem(), Res(), size, align, from, to, begin);
        AlignUpBounds(begin, align);
        begin := AlignUp(begin, align);
        NoWrap(begin, size);
        if Plus(begin, size) > end {
          OverrunHoldsNoFit(Mem(), Res(), size, align, from, to, i, begin);
          return false, 0, j;
        }
        j := SkipReserved(j, begin);
        if j == reserved.size || reserved.ranges[j].begin >= Plus(begin, size) {
          CandidateFits(Mem(), Res(), size, align, from, to, i, j, begin);
          return true, begin, j;
        }
        ConflictHoldsNoFit(Mem(), Res(), size, align, from, to, j, begin);
        begin := reserved.ranges[j].end;
      }
      if end == to { NoFitFromTo(Mem(), Res(), size, align, from, to, begin); }
      return false, 0, j;
    }

    // Advances the cursor past the reserved ranges that end at or before `begin`.
    method SkipReserved(j0: nat, begin: nat) returns (j: nat)
      requires reserved.Valid() && j0 <= reserved.size
      ensures j0 <= j <= reserved.size
      ensures forall m :: j0 <= m < j ==> Res()[m].end <= begin
      ensures j < reserved.size ==> Res()[j].end > begin
    {
      j := j0;
      while j != reserved.size
        invariant j0 <= j <= reserved.size
        invariant forall m :: j0 <= m < j ==> Res()[m].end <= begin
      {
        if reserved.ranges[j].end > begin {
          break;
        }
        j := j + 1;
      }
    }

    method Add(begin: nat, end: nat) returns (ok: bool)
      requires Valid()
      modifies memory, memory.ranges
      ensures Valid() && Res() == old(Res())
      ensures (Mem(), ok) == AddRange(old(Mem()), memory.ranges.Length, begin, end)
    {
      ok := memory.Add(begin, end);
    }

    method Reserve(begin: nat, end: nat) returns (ok: bool)
      requires Valid()
      modifies reserved, reserved.ranges
      ensures Valid() && Mem() == old(Mem())
      ensures (Res(), ok) == AddRange(old(Res()), reserved.ranges.Length, begin, end)
    {
      ok := reserved.Add(begin, end);
    }

    method Alloc(size: nat, align: nat, from: nat, to: nat) returns (addr: nat)
      requires Valid()
      requires Searches(size, from, to) ==> Searchable(Mem(), Res(), size, align, to)
      modifies reserved, reserved.ranges
      ensures Valid() && Mem() == old(Mem())
      ensures (Res(), addr) == AllocRange(Mem(), old(Res()), reserved.ranges.Length, Request(size, align, from, to))
    {
      addr := Find(size, align, from, to);
      FoundInside(Mem(), Res(), reserved.ranges.Length, Request(size, align, from, to));
      if addr != to {
        var ok := Reserve(addr, Plus(addr, size));
        if ok {
          return addr;
        }
      }
      return to;
    }

    // boot_mem_is_free: the result of the search is compared with zero.
    method IsFree(begin: nat, end: nat) returns (free: bool)
      requires Valid() && begin < WORD_RANGE && end < WORD_RANGE
      requires begin < end ==> Searchable(Mem(), Res(), end - begin, 1, end)
      ensures free == IsFreeVerdict(Mem(), Res(), begin, end)
    {
      var addr := Find((end - begin) % WORD_RANGE, 1, begin, end);
      free := addr != 0;
    }
  }

  /* Allocation runs */

  datatype Request = Request(size: nat, align: nat, from: nat, to: nat)

  // The end of the block for request q at address a.
  function Stop(q: Request, a: nat): nat {
    a + q.size
  }

  ghost function AllocRange(mem: seq<Range>, res: seq<Range>, capacity: nat, q: Request): (seq<Range>, nat) {
    var a := Found(mem, res, q.size, q.align, q.from, q.to);
    if a == q.to then (res, q.to)
    else
      var (t, ok) := AddRange(res, capacity, a, Stop(q, a));
      if ok then (t, a) else (res, q.to)
  }

  // The end of the block does not wrap around; an empty block adds nothing.
  lemma FoundInside(mem: seq<Range>, res: seq<Range>, capacity: nat, q: Request)
    requires Searches(q.size, q.from, q.to) ==> Searchable(mem, res, q.size, q.align, q.to)
    ensures var a := Found(mem, res, q.size, q.align, q.from, q.to);
            a != q.to ==> AddRange(res, capacity, a, Plus(a, q.size)) == AddRange(res, capacity, a, Stop(q, a))
  {
    var a := Found(mem, res, q.size, q.align, q.from, q.to);
    if q.size == 0 {
      assert a != q.to ==> Plus(a, 0) <= a;
    } else {
      FoundMeaning(mem, res, q.size, q.align, q.from, q.to);
      assert a != q.to ==> Plus(a, q.size) == Stop(q, a);
    }
  }

  // A granted block is aligned, inside the bounds and in memory.
  ghost predicate Granted(mem: seq<Range>, q: Request, a: nat) {
    && q.align >= 1 && a % q.align == 0 && q.from <= a && a + q.size <= q.to
    && forall x :: a <= x < a + q.size ==> Covered(mem, x)
  }

  ghost predicate Unreserved(res: seq<Range>, begin: nat, end: nat) {
    forall x :: begin <= x < end ==> !Covered(res, x)
  }

  // t covers what s covers and [begin, end), and keeps the gaps.
  ghost predicate Adds(s: seq<Range>, t: seq<Range>, begin: nat, end: nat) {
    Canonical(t) && forall x :: Covered(t, x) <==> Covered(s, x) || begin <= x < end
  }

  // Reserving a block that is not reserved yet.
  lemma ReserveKeeps(res: seq<Range>, capacity: nat, begin: nat, end: nat)
    requires Canonical(res) && Unreserved(res, begin, end)
    ensures AddRange(res, capacity, begin, end).1 ==> Adds(res, AddRange(res, capacity, begin, end).0, begin, end)
    ensures !AddRange(res, capacity, begin, end).1 ==> |res| == capacity
  {
    DisjointKeepsGaps(res, begin, end);
    AddIsUnion(res, capacity, begin, end);
    if AddRange(res, capacity, begin, end).1 { CanonicalKeptIff(res, capacity, begin, end); }
  }

  // A request that is met gets the least fitting block, which was not reserved.
  lemma FoundGrants(mem: seq<Range>, res: seq<Range>, q: Request)
    requires q.size > 0 && Found(mem, res, q.size, q.align, q.from, q.to) != q.to
    ensures var a := Found(mem, res, q.size, q.align, q.from, q.to);
            Granted(mem, q, a) && Unreserved(res, a, Stop(q, a))
  {
    FoundMeaning(mem, res, q.size, q.align, q.from, q.to);
  }

  // Success reserves exactly the block, which was free memory; failure changes nothing.
  ghost predicate GoodAlloc(mem: seq<Range>, res: seq<Range>, q: Request, t: seq<Range>, a: nat) {
    && Canonical(t)
    && if a == q.to then t == res
       else Granted(mem, q, a) && Unreserved(res, a, Stop(q, a)) && Adds(res, t, a, Stop(q, a))
  }

  // One call: the block is the least that fits, and is refused only if there is none or
  // the array of reserved ranges is full.
  lemma AllocReserves(mem: seq<Range>, res: seq<Range>, capacity: nat, q: Request)
    requires Canonical(res) && q.size > 0
    ensures GoodAlloc(mem, res, q, AllocRange(mem, res, capacity, q).0, AllocRange(mem, res, capacity, q).1)
    ensures AllocRange(mem, res, capacity, q).1 == Found(mem, res, q.size, q.align, q.from, q.to)
            || (AllocRange(mem, res, capacity, q).1 == q.to && |res| == capacity)
  {
    var a := Found(mem, res, q.size, q.align, q.from, q.to);
    if a != q.to {
      FoundGrants(mem, res, q);
      ReserveKeeps(res, capacity, a, Stop(q, a));
    }
  }

  // An empty request gets its lower bound, aligned or not, and reserves nothing.
  lemma EmptyRequest(mem: seq<Range>, res: seq<Range>, capacity: nat, q: Request)
    requires q.size == 0
    ensures AllocRange(mem, res, capacity, q) == (res, if q.from <= q.to then q.from else q.to)
  {
  }

  ghost function AllocAll(mem: seq<Range>, res: seq<Range>, capacity: nat, qs: seq<Request>): (seq<Range>, seq<nat>)
    decreases |qs|
  {
    if qs == [] then (res, [])
    else
      var (t, a) := AllocRange(mem, res, capacity, qs[0]);
      var (u, rest) := AllocAll(mem, t, capacity, qs[1..]);
      (u, [a] + rest)
  }

  // Results of a run: every granted block is good, avoids what was reserved before
  // the run, and is reserved after it; no two granted blocks overlap.
  ghost predicate GoodRun(mem: seq<Range>, res: seq<Range>, qs: seq<Request>, t: seq<Range>, addrs: seq<nat>) {
    && |addrs| == |qs|
    && (forall x :: Covered(res, x) ==> Covered(t, x))
    && (forall i :: 0 <= i < |qs| && addrs[i] != qs[i].to ==> Granted(mem, qs[i], addrs[i]))
    && (forall i, x :: 0 <= i < |qs| && addrs[i] != qs[i].to && addrs[i] <= x < addrs[i] + qs[i].size ==>
          !Covered(res, x) && Covered(t, x))
    && (forall i, j :: 0 <= i < j < |qs| && addrs[i] != qs[i].to && addrs[j] != qs[j].to ==>
          Apart(addrs[i], qs[i].size, addrs[j], qs[j].size))
  }

  predicate Apart(a: nat, m: nat, b: nat, n: nat) {
    a + m <= b || b + n <= a
  }

  lemma {:induction false} AllocRun(mem: seq<Range>, res: seq<Range>, capacity: nat, qs: seq<Request>)
    requires Canonical(res) && forall q :: q in qs ==> q.size > 0
    ensures var (t, addrs) := AllocAll(mem, res, capacity, qs);
            Canonical(t) && GoodRun(mem, res, qs, t, addrs)
    decreases |qs|
  {
    if qs != [] {
      var q := qs[0];
      var (t, a) := AllocRange(mem, res, capacity, q);
      assert q in qs;
      AllocReserves(mem, res, capacity, q);
      AllocRun(mem, t, capacity, qs[1..]);
      var (u, rest) := AllocAll(mem, t, capacity, qs[1..]);
      RunExtends(mem, res, qs, t, a, u, rest);
    }
  }

  // The first block and a later one: the later one avoids what the first reserved.
  lemma LaterApart(t: seq<Range>, a: nat, m: nat, b: nat, n: nat)
    requires m > 0 && n > 0 && (forall x :: a <= x < a + m ==> Covered(t, x))
    requires forall x :: b <= x < b + n ==> !Covered(t, x)
    ensures Apart(a, m, b, n)
  {
    var x := Max(a, b);
    assert x < a + m && x < b + n ==> Covered(t, x) && !Covered(t, x);
  }

  lemma RunExtends(mem: seq<Range>, res: seq<Range>, qs: seq<Request>, t: seq<Range>, a: nat,
                   u: seq<Range>, rest: seq<nat>)
    requires qs != [] && qs[0].size > 0 && GoodRun(mem, t, qs[1..], u, rest)
    requires GoodAlloc(mem, res, qs[0], t, a)
    requires forall q :: q in qs ==> q.size > 0
    ensures GoodRun(mem, res, qs, u, [a] + rest)
  {
    var addrs := [a] + rest;
    assert forall i :: 1 <= i < |qs| ==> qs[1..][i - 1] == qs[i] && rest[i - 1] == addrs[i] && qs[i] in qs;
    forall j | 1 <= j < |qs| && a != qs[0].to && addrs[j] != qs[j].to
      ensures Apart(a, qs[0].size, addrs[j], qs[j].size)
    {
      LaterApart(t, a, qs[0].size, addrs[j], qs[j].size);
    }
    forall i, x | 0 <= i < |qs| && addrs[i] != qs[i].to && addrs[i] <= x < addrs[i] + qs[i].size
      ensures !Covered(res, x) && Covered(u, x)
    {
      assert i == 0 ==> Covered(t, x);
    }
  }

  /* boot_mem_is_free does not say whether a range is free. */

  ghost predicate IsFreeVerdict(mem: seq<Range>, res: seq<Range>, begin: nat, end: nat) {
    Found(mem, res, (end - begin) % WORD_RANGE, 1, begin, end) != 0
  }

  ghost predicate RangeFree(mem: seq<Range>, res: seq<Range>, begin: nat, end: nat) {
    forall x :: begin <= x < end ==> Covered(mem, x) && !Covered(res, x)
  }

  // Asked about a proper range, it answers "free" unless the range starts at zero and
  // really is free; the answer is right exactly for free ranges that start elsewhere.
  lemma IsFreeMeaning(mem: seq<Range>, res: seq<Range>, begin: nat, end: nat)
    requires begin < end < WORD_RANGE
    ensures IsFreeVerdict(mem, res, begin, end) <==> !(begin == 0 && RangeFree(mem, res, 0, end))
    ensures (IsFreeVerdict(mem, res, begin, end) <==> RangeFree(mem, res, begin, end))
            <==> (begin > 0 && RangeFree(mem, res, begin, end))
  {
    FoundMeaning(mem, res, end - begin, 1, begin, end);
    assert RangeFree(mem, res, begin, end) <==> Fits(mem, res, end - begin, 1, begin, end, begin);
  }

  // An improper range is called free unless it ends at zero.
  lemma ImproperVerdict(mem: seq<Range>, res: seq<Range>, begin: nat, end: nat)
    requires end <= begin < WORD_RANGE
    ensures IsFreeVerdict(mem, res, begin, end) <==> end != 0
  {
    if begin == end { assert (end - begin) % WORD_RANGE == 0; }
  }

  // Called by init_zone with a size where an end is expected, it accepts every frame
  // but frame 0, and frame 0 only if it is not free.
  lemma FrameVerdict(mem: seq<Range>, res: seq<Range>, pfn: nat)
    requires pfn * 4096 < WORD_RANGE
    ensures IsFreeVerdict(mem, res, pfn * 4096, 4096) <==> pfn > 0 || !RangeFree(mem, res, 0, 4096)
  {
    if pfn == 0 {
      IsFreeMeaning(mem, res, 0, 4096);
    }
  }
}
