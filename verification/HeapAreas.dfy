/**
 The areas of the heap as a list, from the lowest to the highest address.

 The functions say what `heap_alloc`, `heap_free` and `heap_append` do to this list; the lemmas are
 about the list alone: what every operation keeps, and that freeing is confluent.
 */
module HeapAreas {
  import opened Options

  /** `sizeof(HeapArea)`: the size of a header and the alignment of everything. */
  const ALIGN: nat := 64
  const PAGE_SIZE: nat := 4096
  /** The number of values of `size_t`. */
  const WORD: nat := 0x1_0000_0000_0000_0000

  /** `len` is the distance to the next area, including the header. */
  datatype Area = Area(len: nat, used: bool)

  datatype Areas = Nil | Cons(head: Area, tail: Areas)

  function Length(l: Areas): nat {
    if l.Nil? then 0 else 1 + Length(l.tail)
  }

  function Nth(l: Areas, i: nat): Area
    requires i < Length(l)
  {
    if i == 0 then l.head else Nth(l.tail, i - 1)
  }

  function Sum(l: Areas): nat {
    if l.Nil? then 0 else l.head.len + Sum(l.tail)
  }

  /** The distance of area `i` from the beginning of the list; for the length of the list, that of its end. */
  function Off(l: Areas, i: nat): nat
    requires i <= Length(l)
  {
    if i == 0 then 0 else l.head.len + Off(l.tail, i - 1)
  }

  ghost predicate Sizes(l: Areas) {
    l.Cons? ==> l.head.len >= ALIGN && l.head.len % ALIGN == 0 && Sizes(l.tail)
  }

  /** No two neighbours are both free. */
  ghost predicate Merged(l: Areas) {
    l.Cons? ==> (l.tail.Cons? ==> l.head.used || l.tail.head.used) && Merged(l.tail)
  }

  ghost predicate WellFormed(l: Areas) {
    l.Cons? && Sizes(l) && Merged(l)
  }

  // ---------------------------------------------------------------- operations

  /** The size of the area for a request, with the wrap-around of `size_t`. */
  function AreaSize(size: nat): nat {
    (size + ALIGN + ALIGN - 1) % WORD / ALIGN * ALIGN
  }

  predicate Fits(a: Area, n: nat) {
    !a.used && a.len >= n
  }

  /** The fitting area with the highest address. */
  function LastFit(l: Areas, n: nat): (r: Option<nat>)
    ensures r.Some? ==> r.value < Length(l) && Fits(Nth(l, r.value), n)
  {
    if l.Nil? then None
    else
      var r := LastFit(l.tail, n);
      if r.Some? then Some(r.value + 1) else if Fits(l.head, n) then Some(0) else None
  }

  /** Takes `n` bytes from the beginning of area `i`; the rest stays free if it can hold a header. */
  function Take(l: Areas, i: nat, n: nat): (r: Areas)
    requires i < Length(l) && n <= Nth(l, i).len
    ensures Length(l) <= Length(r)
  {
    if i > 0 then Cons(l.head, Take(l.tail, i - 1, n))
    else if l.head.len >= n + ALIGN then Cons(Area(n, true), Cons(Area(l.head.len - n, false), l.tail))
    else Cons(l.head.(used := true), l.tail)
  }

  /** `heap_append`: more bytes behind the last area, which takes them if it is free. */
  function Append(l: Areas, n: nat): Areas
    requires l.Cons?
  {
    if l.tail.Cons? then Cons(l.head, Append(l.tail, n))
    else if l.head.used then Cons(l.head, Cons(Area(n, false), Nil))
    else Cons(Area(l.head.len + n, false), Nil)
  }

  /** Puts an area in front of a list and merges it with the first one if both are free. */
  function Join(x: Area, l: Areas): Areas {
    if l.Cons? && !x.used && !l.head.used then Cons(Area(x.len + l.head.len, false), l.tail) else Cons(x, l)
  }

  /** `heap_free`: area `i` becomes free and merges with its free neighbours. */
  function Free(l: Areas, i: nat): Areas
    requires i < Length(l)
  {
    if i == 0 then Join(l.head.(used := false), l.tail) else Join(l.head, Free(l.tail, i - 1))
  }

  /** `heap_alloc`: every element of `oom` is a number of pages that the callback appends; then it refuses. */
  function Alloc(l: Areas, n: nat, oom: seq<nat>): (r: (Areas, Option<nat>))
    requires l.Cons?
    ensures r.1.Some? ==> r.1.value < Length(r.0)
    decreases |oom|
  {
    var fit := LastFit(l, n);
    if fit.Some? then (Take(l, fit.value, n), fit)
    else if oom == [] then (l, None)
    else Alloc(Append(l, oom[0] * PAGE_SIZE), n, oom[1..])
  }

  // ---------------------------------------------------------------- offsets

  lemma {:induction false} OffFacts(l: Areas, i: nat)
    requires Sizes(l) && i <= Length(l)
    ensures Off(l, i) % ALIGN == 0 && Off(l, i) <= Sum(l)
    ensures i == Length(l) ==> Off(l, i) == Sum(l)
    ensures i < Length(l) ==>
              && Off(l, i + 1) == Off(l, i) + Nth(l, i).len
              && Nth(l, i).len >= ALIGN && Nth(l, i).len % ALIGN == 0
              && Off(l, i) + Nth(l, i).len <= Sum(l)
    decreases i
  {
    if i > 0 {
      OffFacts(l.tail, i - 1);
    } else if l.Cons? {
      assert Off(l, 1) == l.head.len + Off(l.tail, 0);
    }
  }

  /** Areas do not overlap. */
  lemma {:induction false} OffMonotone(l: Areas, i: nat, j: nat)
    requires Sizes(l) && i < j <= Length(l)
    ensures Off(l, i) + Nth(l, i).len <= Off(l, j)
    decreases j
  {
    if i > 0 {
      OffMonotone(l.tail, i - 1, j - 1);
    }
  }

  // ---------------------------------------------------------------- what the operations keep

  lemma {:induction false} TakeKeeps(l: Areas, i: nat, n: nat)
    requires Sizes(l) && Merged(l) && i < Length(l) && Fits(Nth(l, i), n) && n >= ALIGN && n % ALIGN == 0
    ensures var t := Take(l, i, n);
            && WellFormed(t)
            && Sum(t) == Sum(l)
            && (l.head.used ==> t.head.used)
            && i < Length(t) && Off(t, i) == Off(l, i) && Nth(t, i).used && n <= Nth(t, i).len < n + ALIGN
    decreases i
  {
    if i > 0 {
      TakeKeeps(l.tail, i - 1, n);
    }
  }

  lemma {:induction false} FreeKeeps(l: Areas, i: nat)
    requires Sizes(l) && Merged(l) && i < Length(l) && Nth(l, i).used
    ensures WellFormed(Free(l, i)) && Sum(Free(l, i)) == Sum(l)
    ensures i > 0 && l.head.used ==> Free(l, i).head == l.head
    decreases i
  {
    if i == 0 {
      JoinKeeps(l.head.(used := false), l.tail);
    } else {
      FreeKeeps(l.tail, i - 1);
      JoinKeeps(l.head, Free(l.tail, i - 1));
    }
  }

  lemma JoinKeeps(x: Area, l: Areas)
    requires x.len >= ALIGN && x.len % ALIGN == 0 && Sizes(l) && Merged(l)
    ensures WellFormed(Join(x, l)) && Sum(Join(x, l)) == x.len + Sum(l)
  {
  }

  lemma {:induction false} AppendKeeps(l: Areas, n: nat)
    requires WellFormed(l) && n >= ALIGN && n % ALIGN == 0
    ensures WellFormed(Append(l, n)) && Sum(Append(l, n)) == Sum(l) + n
    ensures Append(l, n).head.used == l.head.used
  {
    if l.tail.Cons? {
      AppendKeeps(l.tail, n);
    }
  }

  ghost predicate Pages(oom: seq<nat>) {
    forall k :: 0 <= k < |oom| ==> oom[k] >= 1
  }

  lemma PagesAligned(pages: nat)
    requires pages >= 1
    ensures pages * PAGE_SIZE >= ALIGN && pages * PAGE_SIZE % ALIGN == 0
  {
    assert pages * PAGE_SIZE == (pages * 64) * ALIGN;
  }

  lemma {:induction false} AllocKeeps(l: Areas, n: nat, oom: seq<nat>)
    requires WellFormed(l) && n >= ALIGN && n % ALIGN == 0 && Pages(oom)
    ensures var (t, i) := Alloc(l, n, oom);
            && WellFormed(t) && Sum(t) == Sum(l) + AllocGrowth(l, n, oom)
            && (i.Some? ==> i.value < Length(t) && Nth(t, i.value).used && n <= Nth(t, i.value).len < n + ALIGN)
    decreases |oom|
  {
    var fit := LastFit(l, n);
    if fit.Some? {
      TakeKeeps(l, fit.value, n);
    } else if oom != [] {
      PagesAligned(oom[0]);
      AppendKeeps(l, oom[0] * PAGE_SIZE);
      AllocKeeps(Append(l, oom[0] * PAGE_SIZE), n, oom[1..]);
    }
  }

  // ---------------------------------------------------------------- every run

  datatype Op = OpAlloc(size: nat, oom: seq<nat>) | OpFree(addr: int) | OpAppend(pages: nat)

  /** What the callers guarantee: sizes that do not wrap to 0, at least one page, only used areas are freed. */
  ghost predicate Allowed(l: Areas, at: int, op: Op) {
    match op
    case OpAlloc(size, oom) => size < WORD && AreaSize(size) != 0 && Pages(oom)
    case OpFree(addr) => UsedAt(l, at, addr)
    case OpAppend(pages) => pages >= 1
  }

  function Apply(l: Areas, at: int, op: Op): Areas
    requires l.Cons?
  {
    match op
    case OpAlloc(size, oom) => Alloc(l, AreaSize(size), oom).0
    case OpFree(addr) => FreedAt(l, at, addr)
    case OpAppend(pages) => Append(l, pages * PAGE_SIZE)
  }

  /** The bytes that an allocation appends until an area fits. */
  function AllocGrowth(l: Areas, n: nat, oom: seq<nat>): nat
    requires l.Cons?
    decreases |oom|
  {
    if LastFit(l, n).Some? || oom == [] then 0
    else oom[0] * PAGE_SIZE + AllocGrowth(Append(l, oom[0] * PAGE_SIZE), n, oom[1..])
  }

  function Growth(l: Areas, op: Op): nat
    requires l.Cons?
  {
    match op
    case OpAlloc(size, oom) => AllocGrowth(l, AreaSize(size), oom)
    case OpFree(_) => 0
    case OpAppend(pages) => pages * PAGE_SIZE
  }

  ghost predicate Run(l: Areas, at: int, ops: seq<Op>, l': Areas)
    decreases |ops|
  {
    if ops == [] then l == l'
    else l.Cons? && Allowed(l, at, ops[0]) && Run(Apply(l, at, ops[0]), at, ops[1..], l')
  }

  /** What a run appends to the heap. */
  ghost function RunGrowth(l: Areas, at: int, ops: seq<Op>): nat
    decreases |ops|
  {
    if ops == [] || l.Nil? then 0 else Growth(l, ops[0]) + RunGrowth(Apply(l, at, ops[0]), at, ops[1..])
  }

  lemma StepKeeps(l: Areas, at: int, op: Op)
    requires WellFormed(l) && Allowed(l, at, op)
    ensures WellFormed(Apply(l, at, op)) && Sum(Apply(l, at, op)) == Sum(l) + Growth(l, op)
  {
    match op
    case OpAlloc(size, oom) =>
      AreaSizeExactly(size);
      AllocKeeps(l, AreaSize(size), oom);
    case OpFree(addr) =>
      UsedAtIndex(l, at, addr);
      FreeKeeps(l, IndexOf(l, at, addr));
    case OpAppend(pages) =>
      PagesAligned(pages);
      AppendKeeps(l, pages * PAGE_SIZE);
  }

  /** Every sequence of operations keeps the heap well formed; the areas fill exactly what was there and what was appended. */
  lemma {:induction false} RunKeeps(l: Areas, at: int, ops: seq<Op>, l': Areas)
    requires WellFormed(l) && Run(l, at, ops, l')
    ensures WellFormed(l') && Sum(l') == Sum(l) + RunGrowth(l, at, ops)
    decreases |ops|
  {
    if ops != [] {
      StepKeeps(l, at, ops[0]);
      RunKeeps(Apply(l, at, ops[0]), at, ops[1..], l');
    }
  }

  // ---------------------------------------------------------------- last fit

  /** The scan finds a fitting area exactly if there is one, and no fitting area lies behind it. */
  lemma {:induction false} LastFitIsLast(l: Areas, n: nat, j: nat)
    requires j < Length(l) && !Nth(l, j).used && Nth(l, j).len >= n
    ensures LastFit(l, n).Some? && j <= LastFit(l, n).value
    decreases j
  {
    if j > 0 {
      LastFitIsLast(l.tail, n, j - 1);
    }
  }

  /** Everything that was appended by the callback until it refused. */
  function Extended(l: Areas, oom: seq<nat>): Areas
    requires l.Cons?
    decreases |oom|
  {
    if oom == [] then l else Extended(Append(l, oom[0] * PAGE_SIZE), oom[1..])
  }

  /** `heap_alloc` fails only if no area fits even after all the extensions that it was given. */
  lemma {:induction false} AllocFailsOnlyWhenFull(l: Areas, n: nat, oom: seq<nat>, j: nat)
    requires l.Cons? && Alloc(l, n, oom).1.None?
    ensures Alloc(l, n, oom).0 == Extended(l, oom)
    ensures j < Length(Extended(l, oom)) ==> Nth(Extended(l, oom), j).used || Nth(Extended(l, oom), j).len < n
    decreases |oom|
  {
    if oom == [] {
      if j < Length(l) && Fits(Nth(l, j), n) {
        LastFitIsLast(l, n, j);
      }
    } else {
      AllocFailsOnlyWhenFull(Append(l, oom[0] * PAGE_SIZE), n, oom[1..], j);
    }
  }

  // ---------------------------------------------------------------- free undoes alloc

  /** Allocating without extension and freeing the same area restores the list of areas. */
  lemma {:induction false} FreeUndoesTake(l: Areas, i: nat, n: nat)
    requires Merged(l) && i < Length(l) && Fits(Nth(l, i), n)
    ensures i < Length(Take(l, i, n)) && Free(Take(l, i, n), i) == l
    decreases i
  {
    if i > 0 {
      FreeUndoesTake(l.tail, i - 1, n);
    }
  }

  /** The same by address: freeing what an allocation returned, if it did not extend the heap. */
  lemma FreeUndoesAlloc(l: Areas, at: int, n: nat)
    requires WellFormed(l) && n >= ALIGN && n % ALIGN == 0 && LastFit(l, n).Some?
    ensures var (t, i) := Alloc(l, n, []);
            i.Some? && FreedAt(t, at, at + Off(t, i.value)) == l
  {
    var i := LastFit(l, n).value;
    TakeKeeps(l, i, n);
    FreeUndoesTake(l, i, n);
    IndexOfOff(Take(l, i, n), at, i);
  }

  // ---------------------------------------------------------------- freeing is confluent

  function Coalesce(l: Areas): Areas {
    if l.Nil? then Nil else Join(l.head, Coalesce(l.tail))
  }

  /** The list in which the areas that start at an address in `which` are marked free, but not merged. */
  function Mark(l: Areas, at: int, which: set<int>): Areas {
    if l.Nil? then Nil
    else Cons(Area(l.head.len, l.head.used && at !in which), Mark(l.tail, at + l.head.len, which))
  }

  lemma {:induction false} CoalesceMerged(l: Areas)
    ensures Merged(l) ==> Coalesce(l) == l
    ensures Merged(Coalesce(l))
    ensures Sum(Coalesce(l)) == Sum(l)
  {
    if l.Cons? {
      CoalesceMerged(l.tail);
    }
  }

  /** Merging early does not matter. */
  lemma {:induction false} CoalesceMarkCoalesce(l: Areas, at: int, which: set<int>)
    ensures Coalesce(Mark(Coalesce(l), at, which)) == Coalesce(Mark(l, at, which))
  {
    if l.Cons? {
      var x, t, next := l.head, Coalesce(l.tail), at + l.head.len;
      CoalesceMarkCoalesce(l.tail, next, which);
      if t.Cons? && !x.used && !t.head.used {
        var rest := Mark(t.tail, next + t.head.len, which);
        assert Mark(t, next, which) == Cons(t.head, rest);
        assert Coalesce(Mark(t, next, which)) == Join(t.head, Coalesce(rest));
      } else {
        assert Coalesce(l) == Cons(x, t);
      }
    }
  }

  lemma {:induction false} MarkMark(l: Areas, at: int, a: set<int>, b: set<int>)
    ensures Mark(Mark(l, at, a), at, b) == Mark(l, at, a + b)
  {
    if l.Cons? {
      MarkMark(l.tail, at + l.head.len, a, b);
    }
  }

  /** Marking only addresses below the list changes nothing. */
  lemma {:induction false} MarkBelow(l: Areas, at: int, which: set<int>)
    requires forall a :: a in which ==> a < at
    ensures Mark(l, at, which) == l
  {
    if l.Cons? {
      MarkBelow(l.tail, at + l.head.len, which);
    }
  }

  /** `heap_free` computes the coalesced form of the list with one more free area. */
  lemma {:induction false} FreeIsCoalesce(l: Areas, at: int, i: nat)
    requires Sizes(l) && Merged(l) && i < Length(l)
    ensures Free(l, i) == Coalesce(Mark(l, at, {at + Off(l, i)}))
    decreases i
  {
    if i == 0 {
      MarkBelow(l.tail, at + l.head.len, {at});
      CoalesceMerged(l.tail);
    } else {
      FreeIsCoalesce(l.tail, at + l.head.len, i - 1);
    }
  }

  /** The index of the area that starts at `a`; the length of the list if there is none. */
  function IndexOf(l: Areas, at: int, a: int): nat {
    if l.Nil? || at == a then 0 else 1 + IndexOf(l.tail, at + l.head.len, a)
  }

  /** The areas after the one at address `a` was freed. */
  function FreedAt(l: Areas, at: int, a: int): Areas {
    if IndexOf(l, at, a) < Length(l) then Free(l, IndexOf(l, at, a)) else l
  }

  lemma {:induction false} IndexOfBound(l: Areas, at: int, a: int)
    ensures IndexOf(l, at, a) <= Length(l)
    ensures IndexOf(l, at, a) < Length(l) ==> at + Off(l, IndexOf(l, at, a)) == a
  {
    if l.Cons? && at != a {
      IndexOfBound(l.tail, at + l.head.len, a);
    }
  }

  lemma {:induction false} IndexOfOff(l: Areas, at: int, i: nat)
    requires Sizes(l) && i < Length(l)
    ensures IndexOf(l, at, at + Off(l, i)) == i
    decreases i
  {
    if i > 0 {
      IndexOfOff(l.tail, at + l.head.len, i - 1);
    }
  }

  /** A used area starts at `a`. */
  ghost predicate UsedAt(l: Areas, at: int, a: int) {
    l.Cons? && (if at == a then l.head.used else UsedAt(l.tail, at + l.head.len, a))
  }

  lemma {:induction false} UsedAtIndex(l: Areas, at: int, a: int)
    ensures UsedAt(l, at, a) <==> IndexOf(l, at, a) < Length(l) && Nth(l, IndexOf(l, at, a)).used
  {
    if l.Cons? && at != a {
      UsedAtIndex(l.tail, at + l.head.len, a);
    }
  }

  lemma {:induction false} UsedAbove(l: Areas, at: int, a: int)
    requires a < at
    ensures !UsedAt(l, at, a)
  {
    if l.Cons? {
      UsedAbove(l.tail, at + l.head.len, a);
    }
  }

  lemma {:induction false} CoalesceUsed(l: Areas, at: int, a: int)
    requires Sizes(l)
    ensures UsedAt(Coalesce(l), at, a) <==> UsedAt(l, at, a)
    ensures Sizes(Coalesce(l))
  {
    if l.Cons? {
      var t, next := Coalesce(l.tail), at + l.head.len;
      CoalesceUsed(l.tail, next, a);
      if t.Cons? && !l.head.used && !t.head.used && a == next {
        UsedAbove(t.tail, next + t.head.len, a);
      }
    }
  }

  lemma {:induction false} MarkUsed(l: Areas, at: int, which: set<int>, a: int)
    ensures UsedAt(Mark(l, at, which), at, a) <==> UsedAt(l, at, a) && a !in which
    ensures Sizes(l) ==> Sizes(Mark(l, at, which))
    ensures Sum(Mark(l, at, which)) == Sum(l)
  {
    if l.Cons? {
      MarkUsed(l.tail, at + l.head.len, which, a);
    }
  }

  /** Frees the areas at the given addresses, one after the other. */
  ghost function FreeAll(l: Areas, at: int, order: seq<int>): Areas
    decreases |order|
  {
    if order == [] then l
    else
      var i := IndexOf(l, at, order[0]);
      FreeAll(if i < Length(l) then Free(l, i) else l, at, order[1..])
  }

  /** `order` lists the addresses in `which`, each one once. */
  ghost predicate Lists(order: seq<int>, which: set<int>)
    decreases |order|
  {
    if order == [] then which == {} else order[0] in which && Lists(order[1..], which - {order[0]})
  }

  ghost predicate AllUsed(l: Areas, at: int, which: set<int>) {
    forall a :: a in which ==> UsedAt(l, at, a)
  }

  lemma FreeOne(l: Areas, at: int, a: int, which: set<int>)
    requires Sizes(l) && Merged(l) && AllUsed(l, at, which) && a in which
    ensures IndexOf(l, at, a) < Length(l)
    ensures var f := Free(l, IndexOf(l, at, a));
            && f == Coalesce(Mark(l, at, {a}))
            && Sizes(f) && Merged(f) && AllUsed(f, at, which - {a})
  {
    UsedAtIndex(l, at, a);
    IndexOfBound(l, at, a);
    FreeIsCoalesce(l, at, IndexOf(l, at, a));
    var m := Mark(l, at, {a});
    MarkUsed(l, at, {a}, a);
    CoalesceMerged(m);
    CoalesceUsed(m, at, a);
    forall b | b in which - {a} ensures UsedAt(Coalesce(m), at, b) {
      MarkUsed(l, at, {a}, b);
      CoalesceUsed(m, at, b);
    }
  }

  /**
   Confluence: freeing used areas in any order gives the coalesced form of the list in which they are
   all marked free.  The right-hand side does not depend on the order.
   */
  lemma {:induction false} FreeAllIsCoalesce(l: Areas, at: int, order: seq<int>, which: set<int>)
    requires Sizes(l) && Merged(l) && AllUsed(l, at, which) && Lists(order, which)
    ensures FreeAll(l, at, order) == Coalesce(Mark(l, at, which))
    decreases |order|
  {
    if order == [] {
      MarkBelow(l, at, {});
      CoalesceMerged(l);
    } else {
      var a, rest := order[0], order[1..];
      FreeOne(l, at, a, which);
      FreeAllIsCoalesce(Free(l, IndexOf(l, at, a)), at, rest, which - {a});
      CoalesceMarkCoalesce(Mark(l, at, {a}), at, which - {a});
      MarkMark(l, at, {a}, which - {a});
      assert {a} + (which - {a}) == which;
    }
  }

  /** Two orders of freeing the same areas lead to the same heap. */
  lemma FreeIsConfluent(l: Areas, at: int, order: seq<int>, order': seq<int>, which: set<int>)
    requires WellFormed(l) && AllUsed(l, at, which) && Lists(order, which) && Lists(order', which)
    ensures FreeAll(l, at, order) == FreeAll(l, at, order')
  {
    FreeAllIsCoalesce(l, at, order, which);
    FreeAllIsCoalesce(l, at, order', which);
  }

  ghost predicate NoneUsed(l: Areas) {
    l.Cons? ==> !l.head.used && NoneUsed(l.tail)
  }

  lemma {:induction false} CoalesceNoneUsed(l: Areas)
    requires l.Cons? && NoneUsed(l)
    ensures Coalesce(l) == Cons(Area(Sum(l), false), Nil)
  {
    if l.tail.Cons? {
      CoalesceNoneUsed(l.tail);
    }
  }

  lemma {:induction false} MarkEveryUsed(l: Areas, at: int, which: set<int>)
    requires Sizes(l) && forall a :: at <= a && UsedAt(l, at, a) ==> a in which
    ensures NoneUsed(Mark(l, at, which))
  {
    if l.Cons? {
      assert l.head.used ==> UsedAt(l, at, at);
      forall a | at + l.head.len <= a && UsedAt(l.tail, at + l.head.len, a) ensures a in which {
        assert UsedAt(l, at, a);
      }
      MarkEveryUsed(l.tail, at + l.head.len, which);
    }
  }

  /** Freeing every used area leaves one free area that spans the whole heap. */
  lemma FreeEverything(l: Areas, at: int, order: seq<int>, which: set<int>)
    requires WellFormed(l) && Lists(order, which)
    requires forall a :: a in which <==> UsedAt(l, at, a)
    ensures FreeAll(l, at, order) == Cons(Area(Sum(l), false), Nil)
  {
    FreeAllIsCoalesce(l, at, order, which);
    MarkEveryUsed(l, at, which);
    MarkUsed(l, at, which, at);
    CoalesceNoneUsed(Mark(l, at, which));
  }

  // ---------------------------------------------------------------- sizes of requests

  /** The area holds the request and its header exactly if the computation of its size does not wrap around. */
  lemma AreaSizeExactly(size: nat)
    requires size < WORD
    ensures AreaSize(size) >= size + ALIGN <==> size + 2 * ALIGN - 1 < WORD
    ensures AreaSize(size) % ALIGN == 0
    ensures size + 2 * ALIGN - 1 < WORD ==> ALIGN <= AreaSize(size) < size + 2 * ALIGN
    ensures AreaSize(size) == 0 <==> WORD - 2 * ALIGN < size <= WORD - ALIGN
    ensures AreaSize(size) != 0 ==> AreaSize(size) >= ALIGN
  {
  }

  // ---------------------------------------------------------------- accounting

  function FreeBytes(l: Areas): nat {
    if l.Nil? then 0 else (if l.head.used then 0 else l.head.len) + FreeBytes(l.tail)
  }

  function UsedBytes(l: Areas): nat {
    if l.Nil? then 0 else (if l.head.used then l.head.len else 0) + UsedBytes(l.tail)
  }

  lemma {:induction false} FreePlusUsed(l: Areas)
    ensures FreeBytes(l) + UsedBytes(l) == Sum(l)
  {
    if l.Cons? {
      FreePlusUsed(l.tail);
    }
  }
}
