/**
 The regions of a dataspace and the dataspaces of an address space: which part of the address space a
 page fault populates, and that the parts stay sorted, disjoint and page aligned.
 */
module RegionList {
  const PAGE_SIZE: nat := 4096
  const LPAGE_SIZE: nat := 512 * PAGE_SIZE

  /** `backed` says that the region has memory; offset and size may only shrink before that. */
  datatype Region = Region(offset: nat, size: nat, memoff: nat, backed: bool)

  predicate Contains(r: Region, pos: nat) {
    r.offset <= pos < r.offset + r.size
  }

  predicate Aligned(n: int) {
    n % PAGE_SIZE == 0
  }

  function RoundUp(n: nat): nat {
    (n + PAGE_SIZE - 1) / PAGE_SIZE * PAGE_SIZE
  }

  predicate PageAligned(r: Region) {
    r.size > 0 && Aligned(r.offset) && Aligned(r.size)
  }

  ghost predicate InOrder(r: Region, r': Region) {
    r.offset + r.size <= r'.offset
  }

  /** Sorted, disjoint, page aligned and inside of the dataspace. */
  ghost predicate Sorted(regs: seq<Region>, size: nat) {
    && Aligned(size)
    && (forall i :: 0 <= i < |regs| ==> PageAligned(regs[i]) && regs[i].offset + regs[i].size <= size)
    && (forall i, j :: 0 <= i < j < |regs| ==> InOrder(regs[i], regs[j]))
  }

  /** `r'` is a part of `r` that still contains the faulting position. */
  ghost predicate ShrunkTo(r: Region, r': Region, pos: nat) {
    && PageAligned(r') && Contains(r', pos)
    && r.offset <= r'.offset && r'.offset + r'.size <= r.offset + r.size
  }

  /** Shrinking one region keeps the list in order. */
  lemma ShrinkKeepsSorted(regs: seq<Region>, size: nat, i: nat, r: Region, pos: nat)
    requires Sorted(regs, size) && i < |regs| && ShrunkTo(regs[i], r, pos)
    ensures Sorted(regs[i := r], size)
  {
    var regs' := regs[i := r];
    forall a, b | 0 <= a < b < |regs'| ensures InOrder(regs'[a], regs'[b]) {
      assert InOrder(regs[a], regs[b]);
    }
  }

  /** So does a new region in a gap. */
  lemma InsertKeepsSorted(regs: seq<Region>, size: nat, i: nat, n: Region)
    requires Sorted(regs, size) && i <= |regs| && PageAligned(n) && n.offset + n.size <= size
    requires i > 0 ==> InOrder(regs[i - 1], n)
    requires i < |regs| ==> InOrder(n, regs[i])
    ensures Sorted(regs[..i] + [n] + regs[i..], size)
  {
    var regs' := regs[..i] + [n] + regs[i..];
    forall a, b | 0 <= a < b < |regs'| ensures InOrder(regs'[a], regs'[b]) {
      var a0, b0 := if a < i then a else a - 1, if b < i then b else b - 1;
      if a != i && b != i {
        assert InOrder(regs[a0], regs[b0]);
      } else if b == i && a < i - 1 {
        assert InOrder(regs[a], regs[i - 1]);
      } else if a == i && b > i + 1 {
        assert InOrder(regs[i], regs[b - 1]);
      }
    }
  }

  // ---------------------------------------------------------------- Region::limit_to

  function LimitTo(r: Region, pos: nat, pages: nat): Region {
    if r.size > pages * PAGE_SIZE then
      var end, half := r.offset + r.size, pages / 2 * PAGE_SIZE;
      var offset := if pos > half && pos - half > r.offset then pos - half else r.offset;
      var left := if end > offset then end - offset else 0;
      r.(offset := offset, size := if pages * PAGE_SIZE < left then pages * PAGE_SIZE else left)
    else r
  }

  /** The faulting position stays inside of the limited region exactly if at least one page is allowed. */
  lemma LimitToExactly(r: Region, pos: nat, pages: nat)
    requires PageAligned(r) && Aligned(pos) && Contains(r, pos)
    ensures ShrunkTo(r, LimitTo(r, pos, pages), pos) <==> pages >= 1
    ensures LimitTo(r, pos, pages).size <= pages * PAGE_SIZE
    ensures LimitTo(r, pos, pages).memoff == r.memoff && LimitTo(r, pos, pages).backed == r.backed
  {
    var half := pages / 2 * PAGE_SIZE;
    assert Aligned(half) && Aligned(pages * PAGE_SIZE);
    if pages >= 1 {
      assert half + PAGE_SIZE <= pages * PAGE_SIZE;
    }
  }

  /**
   The limited region is as large as it may be: it begins half of the pages in front of the fault, or where the region
   begins, and has all pages that are allowed, or ends where the region ends.
   */
  lemma LimitToIsLarge(r: Region, pos: nat, pages: nat)
    requires PageAligned(r) && Contains(r, pos) && pages >= 1
    ensures var r', half := LimitTo(r, pos, pages), pages / 2 * PAGE_SIZE;
            && (r.size <= pages * PAGE_SIZE ==> r' == r)
            && (r.size > pages * PAGE_SIZE ==>
                  && pos <= r'.offset + half && (r'.offset == r.offset || pos == r'.offset + half)
                  && (r'.size == pages * PAGE_SIZE || r'.offset + r'.size == r.offset + r.size))
  {
  }

  /** `AnonDataSpace::handle_pf`: a large page if the address and the size allow for it. */
  function AnonPages(vaddr: nat, size: nat, maxpages: nat): nat {
    if vaddr % LPAGE_SIZE == 0 && size >= LPAGE_SIZE then LPAGE_SIZE / PAGE_SIZE else maxpages
  }

  /** A fault at the beginning of a large page gets 2 MiB or everything up to the end, any other fault no more than the maximum. */
  lemma AnonIsLarge(r: Region, pos: nat, vaddr: nat, maxpages: nat)
    requires PageAligned(r) && Aligned(pos) && Contains(r, pos)
    ensures var r' := LimitTo(r, pos, AnonPages(vaddr, r.size, maxpages));
            if vaddr % 0x20_0000 == 0 && r.size >= 0x20_0000
            then r'.size == 0x20_0000 || (r'.size < 0x20_0000 && r'.offset + r'.size == r.offset + r.size)
            else r'.size <= maxpages * PAGE_SIZE
  {
    LimitToIsLarge(r, pos, LPAGE_SIZE / PAGE_SIZE);
    LimitToExactly(r, pos, maxpages);
    LimitToExactly(r, pos, LPAGE_SIZE / PAGE_SIZE);
  }

  // ---------------------------------------------------------------- ExternalDataSpace::handle_pf

  /**
   Aligns a region with a memory capability of `len` bytes that covers the faulting position: that
   position is `capoff` bytes behind the beginning of the capability.
   */
  function AlignToCap(r: Region, fileoff: nat, pos: nat, capoff: nat, len: nat): Region
    requires capoff <= fileoff + pos
  {
    var capbegin := fileoff + pos - capoff;
    var r1 :=
      if capbegin < fileoff + r.offset then r.(memoff := fileoff + r.offset - capbegin)
      else
        var skip := capbegin - fileoff - r.offset;
        r.(offset := capbegin - fileoff, size := if skip <= r.size then r.size - skip else 0);
    if r1.memoff + r1.size > len && r1.memoff <= len then r1.(size := RoundUp(len - r1.memoff)) else r1
  }

  lemma AlignedSum(a: int, b: int)
    requires Aligned(a) && Aligned(b)
    ensures Aligned(a + b) && Aligned(a - b)
  {
  }

  /** Part of `r` from `pos - capoff` on, cut at the end of the capability. */
  lemma CapInside(r: Region, fileoff: nat, pos: nat, capoff: nat, len: nat)
    requires PageAligned(r) && Aligned(pos) && Contains(r, pos) && r.memoff == 0
    requires capoff <= fileoff + pos && capoff < len && Aligned(capoff) && r.offset + capoff <= pos
    ensures CapKept(r, AlignToCap(r, fileoff, pos, capoff, len), pos, capoff, len)
  {
    AlignedSum(pos, capoff);
    AlignedSum(r.offset, r.size);
    AlignedSum(r.offset + r.size, pos - capoff);
    var rest: nat := r.offset + r.size - (pos - capoff);
    var size := if rest > len then RoundUp(len) else rest;
    assert AlignToCap(r, fileoff, pos, capoff, len) == r.(offset := pos - capoff, size := size);
    RoundUpBetween(len, rest, capoff);
  }

  lemma RoundUpBetween(n: nat, m: nat, k: nat)
    requires Aligned(m) && k < n && k < m
    ensures var size := if m > n then RoundUp(n) else m;
            k < size && size <= m && size <= RoundUp(n) && Aligned(size) && (size == m || size == RoundUp(n))
  {
    RoundUpFacts(n);
  }

  lemma CapBefore(r: Region, fileoff: nat, pos: nat, capoff: nat, len: nat)
    requires PageAligned(r) && Aligned(pos) && Contains(r, pos) && r.memoff == 0
    requires capoff <= fileoff + pos && capoff < len && Aligned(capoff) && pos < r.offset + capoff
    ensures CapKept(r, AlignToCap(r, fileoff, pos, capoff, len), pos, capoff, len)
  {
    var memoff: nat := capoff - (pos - r.offset);
    assert Aligned(memoff);
    RoundUpFacts(len - memoff);
    RoundUpFacts(len);
    RoundUpShift(len, memoff);
  }

  /**
   The faulting page is mapped to its place in the file, nothing behind the capability is mapped, and everything
   of the region for which there is memory is.
   */
  ghost predicate CapKept(r: Region, r': Region, pos: nat, capoff: nat, len: nat) {
    && ShrunkTo(r, r', pos) && r'.backed == r.backed
    && r'.memoff + r'.size <= RoundUp(len)
    && r'.memoff + (pos - r'.offset) == capoff
    && (r'.offset == r.offset || r'.memoff == 0)
    && (r'.offset + r'.size == r.offset + r.size || r'.memoff + r'.size == RoundUp(len))
  }

  lemma AlignToCapKeeps(r: Region, fileoff: nat, pos: nat, capoff: nat, len: nat)
    requires PageAligned(r) && Aligned(pos) && Contains(r, pos) && r.memoff == 0
    requires capoff <= fileoff + pos && capoff < len && Aligned(capoff)
    ensures CapKept(r, AlignToCap(r, fileoff, pos, capoff, len), pos, capoff, len)
  {
    if pos < r.offset + capoff {
      CapBefore(r, fileoff, pos, capoff, len);
    } else {
      CapInside(r, fileoff, pos, capoff, len);
    }
  }

  lemma RoundUpFacts(n: nat)
    ensures n <= RoundUp(n) < n + PAGE_SIZE && Aligned(RoundUp(n))
    ensures forall m: nat :: Aligned(m) && n <= m ==> RoundUp(n) <= m
  {
  }

  lemma RoundUpShift(n: nat, m: nat)
    requires Aligned(m) && m <= n
    ensures RoundUp(n - m) + m == RoundUp(n)
  {
  }

  // ---------------------------------------------------------------- AddrSpace::overlaps

  datatype Extent = Extent(addr: nat, size: nat)

  /** `Math::overlap` on half-open ranges. */
  predicate Overlap(start1: nat, end1: nat, start2: nat, end2: nat) {
    || (start1 >= start2 && start1 < end2)
    || (end1 > start2 && end1 <= end2)
    || (start1 < start2 && end1 > end2)
  }

  predicate Disjoint(a: Extent, b: Extent) {
    a.addr + a.size <= b.addr || b.addr + b.size <= a.addr
  }

  lemma OverlapExactly(a: Extent, b: Extent)
    requires a.size > 0
    ensures Overlap(a.addr, a.addr + a.size, b.addr, b.addr + b.size) <==> !Disjoint(a, b)
  {
  }

  ghost predicate AllDisjoint(list: seq<Extent>) {
    && (forall i :: 0 <= i < |list| ==> list[i].size > 0)
    && (forall i, j :: 0 <= i < j < |list| ==> Disjoint(list[i], list[j]))
  }

  method Overlaps(list: seq<Extent>, virt: nat, size: nat) returns (r: bool)
    requires AllDisjoint(list)
    ensures r <==> exists i :: 0 <= i < |list| && !Disjoint(list[i], Extent(virt, size))
    ensures !r && size > 0 ==> AllDisjoint(list + [Extent(virt, size)])
  {
    var i := 0;
    while i < |list|
      invariant 0 <= i <= |list|
      invariant forall j :: 0 <= j < i ==> Disjoint(list[j], Extent(virt, size))
    {
      OverlapExactly(list[i], Extent(virt, size));
      if Overlap(list[i].addr, list[i].addr + list[i].size, virt, virt + size) {
        return true;
      }
      i := i + 1;
    }
    return false;
  }

  // ---------------------------------------------------------------- the list

  ghost function InsertAt(regs: seq<Region>, i: nat, r: Region): seq<Region>
    requires i <= |regs|
  {
    regs[..i] + [r] + regs[i..]
  }

  ghost predicate AllBacked(regs: seq<Region>) {
    forall j :: 0 <= j < |regs| ==> regs[j].backed
  }

  /** What is free between two neighbours. */
  ghost function Gap(regs: seq<Region>, size: nat, i: nat): Region
    requires Sorted(regs, size) && i <= |regs|
  {
    var end := if i == |regs| then size else regs[i].offset;
    var start := if i == 0 then 0 else regs[i - 1].offset + regs[i - 1].size;
    assert i > 0 && i < |regs| ==> InOrder(regs[i - 1], regs[i]);
    Region(start, end - start, 0, false)
  }

  lemma GapFits(regs: seq<Region>, size: nat, i: nat, offset: nat)
    requires Sorted(regs, size) && i <= |regs| && offset < size
    requires i > 0 ==> regs[i - 1].offset + regs[i - 1].size <= offset
    requires i < |regs| ==> offset < regs[i].offset
    ensures Contains(Gap(regs, size, i), offset)
    ensures Sorted(InsertAt(regs, i, Gap(regs, size, i)), size)
  {
    var n := Gap(regs, size, i);
    assert Aligned(n.offset) by {
      if i > 0 {
        AlignedSum(regs[i - 1].offset, regs[i - 1].size);
      }
    }
    AlignedSum(if i == |regs| then size else regs[i].offset, n.offset);
    InsertKeepsSorted(regs, size, i, n);
  }

  class RegionList {
    const size: nat
    var regs: seq<Region>

    ghost predicate Valid()
      reads this
    {
      Sorted(regs, size)
    }

    constructor (size: nat)
      requires Aligned(size)
      ensures Valid() && this.size == size && regs == []
    {
      this.size := size;
      regs := [];
    }

    /** The search for the first region that ends behind the offset. */
    method Search(offset: nat) returns (i: nat)
      ensures i <= |regs| && (i > 0 ==> regs[i - 1].offset + regs[i - 1].size <= offset)
      ensures i < |regs| ==> offset < regs[i].offset + regs[i].size
    {
      i := 0;
      while i < |regs| && regs[i].offset + regs[i].size <= offset
        invariant 0 <= i <= |regs|
        invariant i > 0 ==> regs[i - 1].offset + regs[i - 1].size <= offset
      {
        i := i + 1;
      }
    }

    /** `RegionList::pagefault`: the region that contains the offset, or a new one that fills the gap. */
    method PageFault(offset: nat) returns (i: nat)
      requires Valid() && Aligned(offset) && offset < size
      modifies this
      ensures Valid() && i < |regs| && Contains(regs[i], offset)
      ensures regs == old(regs) || (i <= |old(regs)| && regs == InsertAt(old(regs), i, Gap(old(regs), size, i)))
    {
      i := Search(offset);
      if i < |regs| && regs[i].offset <= offset {
        return;
      }
      var end := if i == |regs| then size else regs[i].offset;
      var start := if i == 0 then 0 else regs[i - 1].offset + regs[i - 1].size;
      GapFits(regs, size, i, offset);
      regs := regs[..i] + [Region(start, end - start, 0, false)] + regs[i..];
    }

    /**
     The part of `AnonDataSpace::handle_pf` that chooses what to populate. Only a new region is added,
     with no more than a large page or the maximum, and all others stay.
     */
    method PopulateAnon(addr: nat, vaddr: nat, maxpages: nat) returns (i: nat)
      requires Valid() && addr <= vaddr < addr + size && Aligned(addr) && maxpages >= 1
      requires AllBacked(regs)
      modifies this
      ensures Valid() && AllBacked(regs) && i < |regs|
      ensures Contains(regs[i], (vaddr - addr) / PAGE_SIZE * PAGE_SIZE)
      ensures |regs| == |old(regs)| ==> regs == old(regs)
      ensures |regs| != |old(regs)| ==>
                && i <= |old(regs)| && regs == InsertAt(old(regs), i, regs[i]) && regs[i].memoff == 0
                && regs[i] == LimitTo(Gap(old(regs), size, i), (vaddr - addr) / PAGE_SIZE * PAGE_SIZE,
                                      AnonPages(vaddr, Gap(old(regs), size, i).size, maxpages)).(backed := true)
                && (regs[i].size <= maxpages * PAGE_SIZE || (vaddr % LPAGE_SIZE == 0 && regs[i].size <= LPAGE_SIZE))
    {
      var offset := (vaddr - addr) / PAGE_SIZE * PAGE_SIZE;
      assert offset <= vaddr - addr;
      i := PageFault(offset);
      if !regs[i].backed {
        var max := AnonPages(vaddr, regs[i].size, maxpages);
        LimitToExactly(regs[i], offset, max);
        var r := LimitTo(regs[i], offset, max).(backed := true);
        ShrinkKeepsSorted(regs, size, i, r, offset);
        regs := regs[i := r];
      }
    }

    /** The same for `ExternalDataSpace::handle_pf`; `capoff` and `len` are what the file system returned. */
    method PopulateExternal(addr: nat, vaddr: nat, maxpages: nat, fileoff: nat, capoff: nat, len: nat) returns (i: nat)
      requires Valid() && addr <= vaddr < addr + size && Aligned(addr) && maxpages >= 1
      requires capoff < len && Aligned(capoff) && capoff <= fileoff + (vaddr - addr) / PAGE_SIZE * PAGE_SIZE
      requires AllBacked(regs)
      modifies this
      ensures Valid() && AllBacked(regs) && i < |regs|
      ensures Contains(regs[i], (vaddr - addr) / PAGE_SIZE * PAGE_SIZE)
      ensures |regs| == |old(regs)| ==> regs == old(regs)
      ensures |regs| != |old(regs)| ==>
                && i <= |old(regs)| && regs == InsertAt(old(regs), i, regs[i])
                && regs[i] == AlignToCap(LimitTo(Gap(old(regs), size, i), (vaddr - addr) / PAGE_SIZE * PAGE_SIZE, maxpages),
                                         fileoff, (vaddr - addr) / PAGE_SIZE * PAGE_SIZE, capoff, len).(backed := true)
                && regs[i].size <= maxpages * PAGE_SIZE
                && regs[i].memoff + regs[i].size <= RoundUp(len)
                && regs[i].memoff + ((vaddr - addr) / PAGE_SIZE * PAGE_SIZE - regs[i].offset) == capoff
    {
      var pos := (vaddr - addr) / PAGE_SIZE * PAGE_SIZE;
      assert pos <= vaddr - addr;
      i := PageFault(pos);
      if !regs[i].backed {
        LimitToExactly(regs[i], pos, maxpages);
        var limited := LimitTo(regs[i], pos, maxpages);
        AlignToCapKeeps(limited, fileoff, pos, capoff, len);
        var r := AlignToCap(limited, fileoff, pos, capoff, len).(backed := true);
        ShrinkKeepsSorted(regs, size, i, r, pos);
        regs := regs[i := r];
      }
    }
  }
}
