/**
 The headers of the heap in memory: what the stores of `heap_alloc`, `heap_free` and `heap_append`
 do to the linked list that the headers form, and which cells they leave alone.
 */
module HeapMemory {
  import opened Options
  import opened HeapAreas

  /**
   A 64-byte unit of memory, seen as a `HeapArea`.  The used bits at the top of `next` are a field of
   their own: the lengths are too small to reach them.
   */
  datatype Cell = Cell(next: nat, used: bool, prev: nat, pad: nat)

  /** The mapped cells, by byte address. */
  type Memory = map<int, Cell>

  function Get(mem: Memory, a: int): Cell {
    if a in mem then mem[a] else Cell(0, false, 0, 0)
  }

  /** The headers from address `at` on form the list `l`: the distances point forwards and backwards. */
  ghost predicate Represents(mem: Memory, at: int, prev: nat, l: Areas)
    decreases l
  {
    && Get(mem, at).prev == prev
    && (l.Cons? ==>
          && Get(mem, at).next == l.head.len && Get(mem, at).used == l.head.used
          && Represents(mem, at + l.head.len, l.head.len, l.tail))
  }

  lemma {:induction false} HeaderAt(mem: Memory, at: int, prev: nat, l: Areas, i: nat)
    requires Represents(mem, at, prev, l) && i <= Length(l)
    ensures var c := Get(mem, at + Off(l, i));
            && c.prev == (if i == 0 then prev else Nth(l, i - 1).len)
            && (i < Length(l) ==> c.next == Nth(l, i).len && c.used == Nth(l, i).used)
    decreases i
  {
    if i > 0 {
      HeaderAt(mem, at + l.head.len, l.head.len, l.tail, i - 1);
    }
  }

  /** Two memories agree behind an address. */
  ghost predicate AgreeBehind(mem: Memory, mem': Memory, at: int) {
    forall x :: x > at ==> Get(mem', x) == Get(mem, x)
  }

  lemma {:induction false} Frame(mem: Memory, mem': Memory, at: int, prev: nat, prev': nat, l: Areas)
    requires Represents(mem, at, prev, l) && Sizes(l)
    requires Get(mem', at) == Get(mem, at).(prev := prev') && AgreeBehind(mem, mem', at)
    ensures Represents(mem', at, prev', l)
    decreases l
  {
    if l.Cons? {
      Frame(mem, mem', at + l.head.len, l.head.len, l.head.len, l.tail);
    }
  }

  // ---------------------------------------------------------------- heap_alloc

  /** The stores of `heap_alloc` once the area at `a` was found. */
  function TakeStores(mem: Memory, a: int, n: nat): Memory {
    var len := Get(mem, a).next;
    if len >= n + ALIGN then
      var m1 := mem[a + n := Get(mem, a + n).(next := len - n, used := false, prev := n)];
      var m2 := m1[a + len := Get(m1, a + len).(prev := len - n)];
      m2[a := Get(m2, a).(next := n, used := true)]
    else
      mem[a := Get(mem, a).(used := true)]
  }

  lemma {:induction false} TakeRepresents(mem: Memory, at: int, prev: nat, l: Areas, i: nat, n: nat)
    requires Represents(mem, at, prev, l) && Sizes(l) && i < Length(l) && Fits(Nth(l, i), n) && n >= ALIGN
    ensures Represents(TakeStores(mem, at + Off(l, i), n), at, prev, Take(l, i, n))
    decreases i
  {
    HeaderAt(mem, at, prev, l, i);
    var mem' := TakeStores(mem, at + Off(l, i), n);
    if i == 0 {
      var end := at + l.head.len;
      Frame(mem, mem', end, l.head.len, Get(mem', end).prev, l.tail);
    } else {
      TakeRepresents(mem, at + l.head.len, l.head.len, l.tail, i - 1, n);
    }
  }

  // ---------------------------------------------------------------- heap_free

  /** The first half: the area at `a` becomes free and merges with a free area in front of it. */
  function FreeLeft(mem: Memory, a: int): (Memory, int) {
    var len := Get(mem, a).next;
    var n, p := a + len, a - Get(mem, a).prev;
    var m := mem[a := Get(mem, a).(used := false)];
    if Get(mem, a).prev > 0 && !Get(m, p).used then
      var m1 := m[p := Get(m, p).(next := Get(m, p).next + len)];
      (m1[n := Get(m1, n).(prev := Get(m1, p).next)], p)
    else (m, a)
  }

  /** The second half: the area at `cur` merges with a free area at `n` behind it. */
  function FreeRight(mem: Memory, cur: int, n: int, end: int): Memory {
    if n < end && !Get(mem, n).used then
      var nn := n + Get(mem, n).next;
      var m1 := mem[cur := Get(mem, cur).(next := Get(mem, cur).next + Get(mem, n).next)];
      m1[nn := Get(m1, nn).(prev := Get(m1, cur).next)]
    else mem
  }

  /** The stores of `heap_free` for the area at `a`. */
  function FreeStores(mem: Memory, a: int, end: int): Memory {
    var (m, cur) := FreeLeft(mem, a);
    FreeRight(m, cur, a + Get(mem, a).next, end)
  }

  /** The area in front of `at`, if there is one, is used. */
  ghost predicate LeftUsed(mem: Memory, at: int, prev: nat) {
    prev > 0 ==> Get(mem, at - prev).used
  }

  lemma MergeRight(mem: Memory, at: int, prev: nat, l: Areas)
    requires Represents(mem, at, prev, l) && Sizes(l) && l.Cons? && !l.head.used
    ensures Represents(FreeRight(mem, at, at + l.head.len, at + Sum(l)), at, prev, Join(l.head, l.tail))
  {
    var n := at + l.head.len;
    var mem' := FreeRight(mem, at, n, at + Sum(l));
    if l.tail.Cons? && !l.tail.head.used {
      var nn := n + l.tail.head.len;
      Frame(mem, mem', nn, l.tail.head.len, Get(mem', nn).prev, l.tail.tail);
    }
  }

  lemma FreeFirstRepresents(mem: Memory, at: int, prev: nat, l: Areas)
    requires Represents(mem, at, prev, l) && Sizes(l) && l.Cons? && LeftUsed(mem, at, prev)
    ensures Represents(FreeStores(mem, at, at + Sum(l)), at, prev, Free(l, 0))
  {
    var n := at + l.head.len;
    var (m, cur) := FreeLeft(mem, at);
    Frame(mem, m, n, l.head.len, l.head.len, l.tail);
    MergeRight(m, at, prev, Cons(l.head.(used := false), l.tail));
  }

  lemma FreeSecondRepresents(mem: Memory, at: int, prev: nat, l: Areas)
    requires Represents(mem, at, prev, l) && Sizes(l) && Merged(l) && l.Cons? && l.tail.Cons? && !l.head.used
    ensures Represents(FreeStores(mem, at + l.head.len, at + Sum(l)), at, prev, Free(l, 1))
  {
    var a, rest := at + l.head.len, l.tail.tail;
    var n, both := a + l.tail.head.len, Area(l.head.len + l.tail.head.len, false);
    var (m, cur) := FreeLeft(mem, a);
    assert Get(m, n) == Get(mem, n).(prev := both.len);
    Frame(mem, m, n, l.tail.head.len, both.len, rest);
    assert Represents(m, at, prev, Cons(both, rest));
    MergeRight(m, at, prev, Cons(both, rest));
  }

  /** The areas from index `k` on. */
  function Drop(l: Areas, k: nat): Areas
    requires k <= Length(l)
  {
    if k == 0 then l else Drop(l.tail, k - 1)
  }

  lemma {:induction false} DropFacts(l: Areas, k: nat)
    requires Sizes(l) && Merged(l) && k <= Length(l)
    ensures Sizes(Drop(l, k)) && Merged(Drop(l, k)) && Length(Drop(l, k)) == Length(l) - k
    ensures Sum(l) == Off(l, k) + Sum(Drop(l, k))
    ensures k < Length(l) ==> Drop(l, k).head == Nth(l, k)
    decreases k
  {
    if k > 0 {
      DropFacts(l.tail, k - 1);
    }
  }

  lemma {:induction false} DropRepresents(mem: Memory, at: int, prev: nat, l: Areas, k: nat)
    requires Represents(mem, at, prev, l) && k <= Length(l)
    ensures Represents(mem, at + Off(l, k), if k == 0 then prev else Nth(l, k - 1).len, Drop(l, k))
    decreases k
  {
    if k > 0 {
      DropRepresents(mem, at + l.head.len, l.head.len, l.tail, k - 1);
    }
  }

  /** Areas in front of the ones that merge stay as they are. */
  lemma {:induction false} PrefixRepresents(mem: Memory, mem': Memory, at: int, prev: nat, l: Areas, k: nat, i: nat)
    requires Represents(mem, at, prev, l) && Sizes(l) && Merged(l) && k <= i < Length(l) && Nth(l, i).used
    requires k == i || (k + 1 == i && !Nth(l, k).used)
    requires k == i > 0 ==> Nth(l, i - 1).used
    requires forall x :: x < at + Off(l, k) ==> Get(mem', x) == Get(mem, x)
    requires Length(Drop(l, k)) == Length(l) - k
    requires Represents(mem', at + Off(l, k), if k == 0 then prev else Nth(l, k - 1).len, Free(Drop(l, k), i - k))
    ensures Represents(mem', at, prev, Free(l, i))
    decreases k
  {
    if k > 0 {
      PrefixRepresents(mem, mem', at + l.head.len, l.head.len, l.tail, k - 1, i - 1);
      FreeKeeps(l.tail, i - 1);
      assert Free(l, i) == Cons(l.head, Free(l.tail, i - 1)) by { HeadStays(l, i); }
    }
  }

  lemma HeadStays(l: Areas, i: nat)
    requires Sizes(l) && Merged(l) && 0 < i < Length(l) && Nth(l, i).used && (i == 1 ==> l.head.used)
    ensures Free(l, i) == Cons(l.head, Free(l.tail, i - 1))
  {
    FreeKeeps(l.tail, i - 1);
  }

  /** `heap_free` changes nothing below the area at which it starts to merge. */
  lemma FreeStoresBelow(mem: Memory, a: int, end: int, x: int)
    requires var p := Get(mem, a).prev; x < if p > 0 && !Get(mem, a - p).used then a - p else a
    ensures Get(FreeStores(mem, a, end), x) == Get(mem, x)
  {
  }

  /** The index of the area at which `heap_free` starts to merge. */
  function MergeStart(l: Areas, i: nat): (k: nat)
    requires i < Length(l)
    ensures k <= i
  {
    if i > 0 && !Nth(l, i - 1).used then i - 1 else i
  }

  function PrevLen(l: Areas, k: nat): nat
    requires k <= Length(l)
  {
    if k == 0 then 0 else Nth(l, k - 1).len
  }

  lemma FreeKeepsFront(mem: Memory, begin: int, l: Areas, i: nat, x: int)
    requires Represents(mem, begin, 0, l) && Sizes(l) && i < Length(l) && x < begin + Off(l, MergeStart(l, i))
    ensures Get(FreeStores(mem, begin + Off(l, i), begin + Sum(l)), x) == Get(mem, x)
  {
    HeaderAt(mem, begin, 0, l, i);
    if i > 0 {
      HeaderAt(mem, begin, 0, l, i - 1);
      OffNext(l, i - 1);
    }
    FreeStoresBelow(mem, begin + Off(l, i), begin + Sum(l), x);
  }

  lemma FreeAloneRest(mem: Memory, begin: int, l: Areas, i: nat)
    requires Represents(mem, begin, 0, l) && Sizes(l) && Merged(l) && i < Length(l) && MergeStart(l, i) == i
    ensures Length(Drop(l, i)) == Length(l) - i
    ensures Represents(FreeStores(mem, begin + Off(l, i), begin + Sum(l)), begin + Off(l, i), PrevLen(l, i), Free(Drop(l, i), 0))
  {
    if i > 0 {
      HeaderAt(mem, begin, 0, l, i - 1);
      OffNext(l, i - 1);
    }
    DropFacts(l, i);
    DropRepresents(mem, begin, 0, l, i);
    FreeFirstRepresents(mem, begin + Off(l, i), PrevLen(l, i), Drop(l, i));
  }

  lemma FreeMergedRest(mem: Memory, begin: int, l: Areas, k: nat)
    requires Represents(mem, begin, 0, l) && Sizes(l) && Merged(l) && k + 1 < Length(l) && !Nth(l, k).used
    ensures Length(Drop(l, k)) == Length(l) - k
    ensures Represents(FreeStores(mem, begin + Off(l, k + 1), begin + Sum(l)), begin + Off(l, k), PrevLen(l, k), Free(Drop(l, k), 1))
  {
    OffNext(l, k);
    DropFacts(l, k);
    DropRepresents(mem, begin, 0, l, k);
    FreeSecondRepresents(mem, begin + Off(l, k), PrevLen(l, k), Drop(l, k));
  }

  lemma FreeRepresents(mem: Memory, begin: int, l: Areas, i: nat)
    requires Represents(mem, begin, 0, l) && Sizes(l) && Merged(l) && i < Length(l) && Nth(l, i).used
    ensures Represents(FreeStores(mem, begin + Off(l, i), begin + Sum(l)), begin, 0, Free(l, i))
  {
    var k, mem' := MergeStart(l, i), FreeStores(mem, begin + Off(l, i), begin + Sum(l));
    forall x | x < begin + Off(l, k) ensures Get(mem', x) == Get(mem, x) {
      FreeKeepsFront(mem, begin, l, i, x);
    }
    if k == i {
      FreeAloneRest(mem, begin, l, i);
    } else {
      FreeMergedRest(mem, begin, l, k);
    }
    PrefixRepresents(mem, mem', begin, 0, l, k, i);
  }

  // ---------------------------------------------------------------- heap_append

  function RoundUpPage(a: int): int {
    (a + PAGE_SIZE - 1) / PAGE_SIZE * PAGE_SIZE
  }

  /** The new end of the heap: the last header that fits into the appended pages. */
  function NewEnd(end: int, pages: nat): int {
    RoundUpPage(end) + pages * PAGE_SIZE - ALIGN
  }

  function AppendStores(mem: Memory, end: int, pages: nat): Memory
    requires end <= NewEnd(end, pages)
  {
    var end', p := NewEnd(end, pages), end - Get(mem, end).prev;
    var m := mem[end' := Get(mem, end').(next := 0, used := false)];
    if Get(m, p).used then
      var m1 := m[end' := Get(m, end').(prev := end' - end)];
      m1[end := Get(m1, end).(next := end' - end, used := false)]
    else
      var m1 := m[end' := Get(m, end').(prev := Get(m, end).prev + pages * PAGE_SIZE)];
      m1[p := Get(m1, p).(next := Get(m1, p).next + pages * PAGE_SIZE)]
  }

  lemma {:induction false} AppendRepresents(mem: Memory, at: int, prev: nat, l: Areas, pages: nat)
    requires Represents(mem, at, prev, l) && WellFormed(l) && pages >= 1
    requires (at + Sum(l) + ALIGN) % PAGE_SIZE == 0
    ensures NewEnd(at + Sum(l), pages) == at + Sum(l) + pages * PAGE_SIZE
    ensures Represents(AppendStores(mem, at + Sum(l), pages), at, prev, Append(l, pages * PAGE_SIZE))
    decreases l
  {
    EndIsInPlace(at + Sum(l), pages);
    if l.tail.Cons? {
      AppendRepresents(mem, at + l.head.len, l.head.len, l.tail, pages);
      AppendStoresBehind(mem, at, prev, l, pages);
    }
  }

  lemma EndIsInPlace(end: int, pages: nat)
    ensures NewEnd(end, pages) == end + pages * PAGE_SIZE <==> (end + ALIGN) % PAGE_SIZE == 0
  {
    var q, r := end / PAGE_SIZE, end % PAGE_SIZE;
    assert end == q * PAGE_SIZE + r;
    if r == 0 {
      assert RoundUpPage(end) == end;
    } else {
      assert RoundUpPage(end) == (q + 1) * PAGE_SIZE;
    }
  }

  lemma AppendStoresBehind(mem: Memory, at: int, prev: nat, l: Areas, pages: nat)
    requires Represents(mem, at, prev, l) && WellFormed(l) && l.tail.Cons? && pages >= 1
    requires (at + Sum(l) + ALIGN) % PAGE_SIZE == 0
    requires at + Sum(l) <= NewEnd(at + Sum(l), pages)
    ensures Get(AppendStores(mem, at + Sum(l), pages), at) == Get(mem, at)
  {
    var k := Length(l);
    HeaderAt(mem, at, prev, l, k);
    OffFacts(l, k);
    OffFacts(l, k - 1);
    OffMonotone(l, 0, k - 1);
  }

  // ---------------------------------------------------------------- live payloads

  /** `x` belongs to the payload of a used area. */
  ghost predicate Live(l: Areas, at: int, x: int)
    decreases l
  {
    l.Cons? && ((l.head.used && at + ALIGN <= x < at + l.head.len) || Live(l.tail, at + l.head.len, x))
  }

  /** A used area of length `len` starts at `a`. */
  ghost predicate UsedArea(l: Areas, at: int, a: int, len: nat)
    decreases l
  {
    l.Cons? && ((l.head.used && at == a && l.head.len == len) || UsedArea(l.tail, at + l.head.len, a, len))
  }

  lemma {:induction false} LiveAbove(l: Areas, at: int, x: int)
    requires Sizes(l) && Live(l, at, x)
    ensures at + ALIGN <= x < at + Sum(l)
    decreases l
  {
    if Live(l.tail, at + l.head.len, x) {
      LiveAbove(l.tail, at + l.head.len, x);
    }
  }

  lemma {:induction false} UsedAreaAbove(l: Areas, at: int, a: int, len: nat)
    requires Sizes(l) && UsedArea(l, at, a, len)
    ensures at <= a && len >= ALIGN && len % ALIGN == 0 && (a - at) % ALIGN == 0 && a + len <= at + Sum(l)
    decreases l
  {
    if UsedArea(l.tail, at + l.head.len, a, len) {
      UsedAreaAbove(l.tail, at + l.head.len, a, len);
    }
  }

  /** The payload of a used area is live. */
  lemma {:induction false} UsedAreaIsLive(l: Areas, at: int, a: int, len: nat, x: int)
    requires UsedArea(l, at, a, len) && a + ALIGN <= x < a + len
    ensures Live(l, at, x)
    decreases l
  {
    if UsedArea(l.tail, at + l.head.len, a, len) {
      UsedAreaIsLive(l.tail, at + l.head.len, a, len, x);
    }
  }

  lemma {:induction false} UsedAreaIndex(l: Areas, at: int, a: int, len: nat)
    requires Sizes(l) && UsedArea(l, at, a, len)
    ensures var i := IndexOf(l, at, a); i < Length(l) && Nth(l, i) == Area(len, true) && at + Off(l, i) == a
    decreases l
  {
    if UsedArea(l.tail, at + l.head.len, a, len) {
      UsedAreaAbove(l.tail, at + l.head.len, a, len);
      UsedAreaIndex(l.tail, at + l.head.len, a, len);
    }
  }

  lemma {:induction false} NthUsedArea(l: Areas, at: int, i: nat)
    requires i < Length(l) && Nth(l, i).used
    ensures UsedArea(l, at, at + Off(l, i), Nth(l, i).len)
    decreases i
  {
    if i > 0 {
      NthUsedArea(l.tail, at + l.head.len, i - 1);
    }
  }

  /** Payloads of different used areas have no byte in common. */
  lemma {:induction false} UsedAreasApart(l: Areas, at: int, a: int, len: nat, b: int, len': nat)
    requires Sizes(l) && UsedArea(l, at, a, len) && UsedArea(l, at, b, len') && a != b
    ensures a + len <= b || b + len' <= a
    decreases l
  {
    var next := at + l.head.len;
    if UsedArea(l.tail, next, a, len) && UsedArea(l.tail, next, b, len') {
      UsedAreasApart(l.tail, next, a, len, b, len');
    } else if UsedArea(l.tail, next, a, len) {
      UsedAreaAbove(l.tail, next, a, len);
    } else if UsedArea(l.tail, next, b, len') {
      UsedAreaAbove(l.tail, next, b, len');
    }
  }

  lemma {:induction false} TakeKeepsLive(mem: Memory, at: int, prev: nat, l: Areas, i: nat, n: nat, x: int)
    requires Represents(mem, at, prev, l) && Sizes(l) && i < Length(l) && Fits(Nth(l, i), n) && Live(l, at, x)
    ensures Get(TakeStores(mem, at + Off(l, i), n), x) == Get(mem, x)
    ensures Live(Take(l, i, n), at, x)
    decreases i
  {
    HeaderAt(mem, at, prev, l, i);
    OffFacts(l, i);
    if Live(l.tail, at + l.head.len, x) {
      LiveAbove(l.tail, at + l.head.len, x);
      if i > 0 {
        TakeKeepsLive(mem, at + l.head.len, l.head.len, l.tail, i - 1, n, x);
      }
    } else {
      OffMonotone(l, 0, i);
    }
  }

  lemma {:induction false} TakeKeepsArea(l: Areas, at: int, i: nat, n: nat, a: int, len: nat)
    requires Sizes(l) && i < Length(l) && Fits(Nth(l, i), n) && UsedArea(l, at, a, len)
    ensures UsedArea(Take(l, i, n), at, a, len)
    ensures a != at + Off(l, i)
    decreases i
  {
    OffFacts(l, i);
    if UsedArea(l.tail, at + l.head.len, a, len) {
      UsedAreaAbove(l.tail, at + l.head.len, a, len);
      if i > 0 {
        TakeKeepsArea(l.tail, at + l.head.len, i - 1, n, a, len);
      }
    } else {
      OffMonotone(l, 0, i);
    }
  }

  /** No header is part of a payload. */
  lemma {:induction false} LiveIsNoHeader(l: Areas, at: int, x: int, i: nat)
    requires Sizes(l) && Live(l, at, x) && i <= Length(l)
    ensures x != at + Off(l, i)
    decreases l
  {
    if Live(l.tail, at + l.head.len, x) {
      LiveAbove(l.tail, at + l.head.len, x);
      if i > 0 {
        LiveIsNoHeader(l.tail, at + l.head.len, x, i - 1);
      }
    } else if i > 0 {
      OffMonotone(l, 0, i);
    }
  }

  /** None of the at most four headers to which `heap_free` writes. */
  ghost predicate Elsewhere(mem: Memory, a: int, end: int, x: int) {
    var n := a + Get(mem, a).next;
    && Get(mem, a).next > 0 && x != a && x != n && (Get(mem, a).prev > 0 ==> x != a - Get(mem, a).prev)
    && (n < end ==> x != n + Get(mem, n).next)
  }

  lemma FreeStoresWrites(mem: Memory, a: int, end: int, x: int)
    requires Elsewhere(mem, a, end, x)
    ensures Get(FreeStores(mem, a, end), x) == Get(mem, x)
  {
  }

  lemma {:induction false} OffNext(l: Areas, i: nat)
    requires Sizes(l) && i < Length(l)
    ensures Off(l, i + 1) == Off(l, i) + Nth(l, i).len && Nth(l, i).len > 0
    ensures i + 1 == Length(l) ==> Off(l, i + 1) == Sum(l)
    decreases i
  {
    if i > 0 {
      OffNext(l.tail, i - 1);
    }
  }

  lemma LiveIsElsewhere(mem: Memory, at: int, l: Areas, i: nat, x: int)
    requires Represents(mem, at, 0, l) && Sizes(l) && i < Length(l) && Live(l, at, x)
    ensures Elsewhere(mem, at + Off(l, i), at + Sum(l), x)
  {
    HeaderAt(mem, at, 0, l, i);
    OffNext(l, i);
    LiveIsNoHeader(l, at, x, i);
    LiveIsNoHeader(l, at, x, i + 1);
    if i > 0 {
      OffNext(l, i - 1);
      LiveIsNoHeader(l, at, x, i - 1);
    }
    if i + 1 < Length(l) {
      HeaderAt(mem, at, 0, l, i + 1);
      OffNext(l, i + 1);
      LiveIsNoHeader(l, at, x, i + 2);
    }
  }

  /** And it still belongs to a used area. */
  lemma {:induction false} FreeKeepsLive(l: Areas, at: int, i: nat, x: int)
    requires Sizes(l) && i < Length(l) && Live(l, at, x)
    requires !(at + Off(l, i) <= x < at + Off(l, i) + Nth(l, i).len)
    ensures Live(Free(l, i), at, x)
    decreases i
  {
    if i == 0 {
      JoinKeepsLive(l.head.(used := false), l.tail, at, x);
    } else if Live(l.tail, at + l.head.len, x) {
      FreeKeepsLive(l.tail, at + l.head.len, i - 1, x);
      JoinKeepsLive(l.head, Free(l.tail, i - 1), at, x);
    } else {
      FreeKeepsHead(l, i, at, x);
    }
  }

  lemma FreeKeepsHead(l: Areas, i: nat, at: int, x: int)
    requires 0 < i < Length(l) && l.head.used && at + ALIGN <= x < at + l.head.len
    ensures Live(Free(l, i), at, x)
  {
    assert Free(l, i) == Cons(l.head, Free(l.tail, i - 1));
  }

  lemma JoinKeepsLive(x: Area, l: Areas, at: int, y: int)
    requires Live(l, at + x.len, y)
    ensures Live(Join(x, l), at, y)
  {
  }

  lemma {:induction false} AppendKeepsLive(mem: Memory, at: int, prev: nat, l: Areas, pages: nat, x: int)
    requires Represents(mem, at, prev, l) && WellFormed(l) && pages >= 1 && Live(l, at, x)
    requires (at + Sum(l) + ALIGN) % PAGE_SIZE == 0 && at + Sum(l) <= NewEnd(at + Sum(l), pages)
    ensures Get(AppendStores(mem, at + Sum(l), pages), x) == Get(mem, x)
    ensures Live(Append(l, pages * PAGE_SIZE), at, x)
    decreases l
  {
    var next := at + l.head.len;
    if Live(l.tail, next, x) {
      AppendKeepsLive(mem, next, l.head.len, l.tail, pages, x);
    } else if l.tail.Cons? {
      var k := Length(l);
      HeaderAt(mem, at, prev, l, k);
      OffFacts(l, k);
      OffFacts(l, k - 1);
      OffMonotone(l, 0, k - 1);
    }
  }

  lemma {:induction false} AppendKeepsArea(l: Areas, at: int, n: nat, a: int, len: nat)
    requires l.Cons? && UsedArea(l, at, a, len)
    ensures UsedArea(Append(l, n), at, a, len)
    decreases l
  {
    if UsedArea(l.tail, at + l.head.len, a, len) {
      AppendKeepsArea(l.tail, at + l.head.len, n, a, len);
    }
  }

  // ---------------------------------------------------------------- the condition on the end of the heap

  /**
   If the last area is free, it reaches the new end after appending pages exactly if the header at the end of
   the heap was the last one of its page.
   */
  lemma MergeNeedsAlignedEnd(mem: Memory, begin: int, l: Areas, pages: nat)
    requires Represents(mem, begin, 0, l) && WellFormed(l) && !Nth(l, Length(l) - 1).used && pages >= 1
    requires begin + Sum(l) <= NewEnd(begin + Sum(l), pages)
    ensures var end, a := begin + Sum(l), begin + Off(l, Length(l) - 1);
            (end + ALIGN) % PAGE_SIZE == 0 <==> a + Get(AppendStores(mem, end, pages), a).next == NewEnd(end, pages)
  {
    var k := Length(l);
    HeaderAt(mem, begin, 0, l, k);
    HeaderAt(mem, begin, 0, l, k - 1);
    OffNext(l, k - 1);
    EndIsInPlace(begin + Sum(l), pages);
  }

  // ---------------------------------------------------------------- the whole heap

  /** A heap from `begin` to `end`. */
  ghost predicate Heap(mem: Memory, begin: int, end: int, l: Areas) {
    && 0 < begin && begin % ALIGN == 0
    && WellFormed(l) && end == begin + Sum(l)
    && Represents(mem, begin, 0, l)
  }

  /** No payload byte of a used area is lost or changed. */
  ghost predicate Preserves(mem: Memory, l: Areas, mem': Memory, l': Areas, begin: int) {
    forall x :: Live(l, begin, x) ==> Live(l', begin, x) && Get(mem', x) == Get(mem, x)
  }

  lemma MorePages(a: int, pages: nat)
    requires a % PAGE_SIZE == 0
    ensures (a + pages * PAGE_SIZE) % PAGE_SIZE == 0
  {
  }

  lemma AppendEnd(end: int, pages: nat)
    requires (end + ALIGN) % PAGE_SIZE == 0
    ensures NewEnd(end, pages) == end + pages * PAGE_SIZE && (NewEnd(end, pages) + ALIGN) % PAGE_SIZE == 0
  {
    EndIsInPlace(end, pages);
    MorePages(end + ALIGN, pages);
  }

  lemma AppendPreserves(mem: Memory, begin: int, end: int, l: Areas, pages: nat)
    requires Heap(mem, begin, end, l) && (end + ALIGN) % PAGE_SIZE == 0 && pages >= 1 && end <= NewEnd(end, pages)
    ensures Preserves(mem, l, AppendStores(mem, end, pages), Append(l, pages * PAGE_SIZE), begin)
  {
    forall x | Live(l, begin, x)
      ensures Live(Append(l, pages * PAGE_SIZE), begin, x) && Get(AppendStores(mem, end, pages), x) == Get(mem, x)
    {
      AppendKeepsLive(mem, begin, 0, l, pages, x);
    }
  }

  lemma AppendHeap(mem: Memory, begin: int, end: int, l: Areas, pages: nat)
    requires Heap(mem, begin, end, l) && (end + ALIGN) % PAGE_SIZE == 0 && pages >= 1
    ensures NewEnd(end, pages) == end + pages * PAGE_SIZE && (NewEnd(end, pages) + ALIGN) % PAGE_SIZE == 0
    ensures Heap(AppendStores(mem, end, pages), begin, NewEnd(end, pages), Append(l, pages * PAGE_SIZE))
    ensures Preserves(mem, l, AppendStores(mem, end, pages), Append(l, pages * PAGE_SIZE), begin)
  {
    AppendEnd(end, pages);
    PagesAligned(pages);
    AppendKeeps(l, pages * PAGE_SIZE);
    AppendRepresents(mem, begin, 0, l, pages);
    AppendPreserves(mem, begin, end, l, pages);
  }

  lemma TakeHeap(mem: Memory, begin: int, end: int, l: Areas, i: nat, n: nat)
    requires Heap(mem, begin, end, l) && i < Length(l) && Fits(Nth(l, i), n) && n >= ALIGN && n % ALIGN == 0
    ensures Heap(TakeStores(mem, begin + Off(l, i), n), begin, end, Take(l, i, n))
    ensures Preserves(mem, l, TakeStores(mem, begin + Off(l, i), n), Take(l, i, n), begin)
  {
    TakeKeeps(l, i, n);
    TakeRepresents(mem, begin, 0, l, i, n);
    forall x | Live(l, begin, x)
      ensures Live(Take(l, i, n), begin, x) && Get(TakeStores(mem, begin + Off(l, i), n), x) == Get(mem, x)
    {
      TakeKeepsLive(mem, begin, 0, l, i, n, x);
    }
  }

  /** No payload byte outside of the area at `a` is lost or changed. */
  ghost predicate PreservesOthers(mem: Memory, l: Areas, mem': Memory, l': Areas, begin: int, a: int, len: nat) {
    forall x :: Live(l, begin, x) && !(a <= x < a + len) ==> Live(l', begin, x) && Get(mem', x) == Get(mem, x)
  }

  lemma FreePreserves(mem: Memory, begin: int, end: int, l: Areas, i: nat, a: int, len: nat)
    requires Heap(mem, begin, end, l) && i < Length(l) && a == begin + Off(l, i) && len == Nth(l, i).len
    ensures PreservesOthers(mem, l, FreeStores(mem, a, end), Free(l, i), begin, a, len)
  {
    forall x | Live(l, begin, x) && !(a <= x < a + len)
      ensures Live(Free(l, i), begin, x) && Get(FreeStores(mem, a, end), x) == Get(mem, x)
    {
      LiveIsElsewhere(mem, begin, l, i, x);
      FreeStoresWrites(mem, a, end, x);
      FreeKeepsLive(l, begin, i, x);
    }
  }

  lemma FreeAtHeap(mem: Memory, begin: int, end: int, l: Areas, i: nat, a: int)
    requires Heap(mem, begin, end, l) && i < Length(l) && Nth(l, i).used && a == begin + Off(l, i)
    ensures Heap(FreeStores(mem, a, end), begin, end, Free(l, i))
  {
    FreeKeeps(l, i);
    FreeRepresents(mem, begin, l, i);
  }

  lemma FreeHeap(mem: Memory, begin: int, end: int, l: Areas, a: int, len: nat)
    requires Heap(mem, begin, end, l) && UsedArea(l, begin, a, len)
    ensures Heap(FreeStores(mem, a, end), begin, end, FreedAt(l, begin, a))
    ensures PreservesOthers(mem, l, FreeStores(mem, a, end), FreedAt(l, begin, a), begin, a, len)
  {
    UsedAreaIndex(l, begin, a, len);
    var i := IndexOf(l, begin, a);
    assert FreedAt(l, begin, a) == Free(l, i);
    FreeAtHeap(mem, begin, end, l, i, a);
    FreePreserves(mem, begin, end, l, i, a, len);
  }

  lemma InitHeap(mem: Memory, begin: int, end: int)
    requires 0 < begin && begin % ALIGN == 0 && begin < end && end % ALIGN == 0
    requires Get(mem, begin) == Cell(end - begin, false, 0, Get(mem, begin).pad) && Get(mem, end).prev == end - begin
    ensures Heap(mem, begin, end, Cons(Area(end - begin, false), Nil))
  {
    assert (end - begin) % ALIGN == 0;
    assert Represents(mem, end, end - begin, Nil);
  }

  /** What `heap_alloc` hands out was not part of any payload before. */
  lemma {:induction false} FreeAreaNotLive(l: Areas, at: int, i: nat, x: int)
    requires Sizes(l) && i < Length(l) && !Nth(l, i).used
    requires at + Off(l, i) <= x < at + Off(l, i) + Nth(l, i).len
    ensures !Live(l, at, x)
    decreases i
  {
    if i > 0 {
      OffMonotone(l, 0, i);
      FreeAreaNotLive(l.tail, at + l.head.len, i - 1, x);
    } else if Live(l.tail, at + l.head.len, x) {
      LiveAbove(l.tail, at + l.head.len, x);
    }
  }

  /** `p` points to the payload of a used area with room for `size` bytes. */
  ghost predicate Payload(mem: Memory, begin: int, l: Areas, p: int, size: nat) {
    && p % ALIGN == 0 && begin < p
    && size + ALIGN <= Get(mem, p - ALIGN).next
    && UsedArea(l, begin, p - ALIGN, Get(mem, p - ALIGN).next)
  }

  /** None of the bytes that `p` points to was live before. */
  ghost predicate Fresh(l: Areas, begin: int, mem': Memory, p: int) {
    forall x :: p <= x < p - ALIGN + Get(mem', p - ALIGN).next ==> !Live(l, begin, x)
  }

  lemma HeaderAligned(begin: int, l: Areas, i: nat)
    requires begin % ALIGN == 0 && Sizes(l) && i <= Length(l)
    ensures (begin + Off(l, i) + ALIGN) % ALIGN == 0
  {
    OffFacts(l, i);
  }

  lemma TakeGivesPayload(mem: Memory, begin: int, end: int, l: Areas, i: nat, n: nat, size: nat)
    requires Heap(mem, begin, end, l) && i < Length(l) && Fits(Nth(l, i), n) && n >= ALIGN && n % ALIGN == 0
    requires size + ALIGN <= n
    ensures Payload(TakeStores(mem, begin + Off(l, i), n), begin, Take(l, i, n), begin + Off(l, i) + ALIGN, size)
  {
    var t := Take(l, i, n);
    assert Off(t, i) == Off(l, i) && Nth(t, i).used && n <= Nth(t, i).len by { TakeKeeps(l, i, n); }
    assert Get(TakeStores(mem, begin + Off(l, i), n), begin + Off(l, i)).next == Nth(t, i).len by {
      TakeRepresents(mem, begin, 0, l, i, n);
      HeaderAt(TakeStores(mem, begin + Off(l, i), n), begin, 0, t, i);
    }
    NthUsedArea(t, begin, i);
    HeaderAligned(begin, l, i);
  }

  lemma TakeGivesFresh(mem: Memory, begin: int, end: int, l: Areas, i: nat, n: nat)
    requires Heap(mem, begin, end, l) && i < Length(l) && Fits(Nth(l, i), n)
    ensures Fresh(l, begin, TakeStores(mem, begin + Off(l, i), n), begin + Off(l, i) + ALIGN)
  {
    HeaderAt(mem, begin, 0, l, i);
    OffFacts(l, i);
    var a := begin + Off(l, i);
    forall x | a + ALIGN <= x < a + Get(TakeStores(mem, a, n), a).next ensures !Live(l, begin, x) {
      FreeAreaNotLive(l, begin, i, x);
    }
  }

  /** Everything that `heap_alloc` promises once it found an area. */
  lemma TakeResult(mem: Memory, begin: int, end: int, l: Areas, i: nat, n: nat)
    requires Heap(mem, begin, end, l) && i < Length(l) && Fits(Nth(l, i), n) && n >= ALIGN && n % ALIGN == 0
    ensures var a, t := begin + Off(l, i), Take(l, i, n);
            var mem' := TakeStores(mem, a, n);
            && Heap(mem', begin, end, t) && Preserves(mem, l, mem', t, begin) && i < Length(t) && Off(t, i) == Off(l, i)
            && Payload(mem', begin, t, a + ALIGN, n - ALIGN) && Fresh(l, begin, mem', a + ALIGN)
  {
    TakeHeap(mem, begin, end, l, i, n);
    TakeKeepsOff(l, i, n);
    TakeGivesPayload(mem, begin, end, l, i, n, n - ALIGN);
    TakeGivesFresh(mem, begin, end, l, i, n);
  }

  // ---------------------------------------------------------------- lost heaps

  /** No list of areas fits to the headers anymore. */
  ghost predicate Lost(mem: Memory, begin: int, end: int) {
    forall l :: !Heap(mem, begin, end, l)
  }

  /** Following the headers from `at` on passes the first `k` areas of `l`. */
  ghost predicate Leads(mem: Memory, at: int, l: Areas, k: nat)
    requires k <= Length(l)
    decreases k
  {
    k > 0 ==> Get(mem, at).next == l.head.len && Leads(mem, at + l.head.len, l.tail, k - 1)
  }

  lemma {:induction false} LeadsKeeps(mem: Memory, mem': Memory, at: int, prev: nat, l: Areas, k: nat)
    requires Represents(mem, at, prev, l) && Sizes(l) && k <= Length(l)
    requires forall x :: at <= x < at + Off(l, k) && !Live(l, at, x) ==> Get(mem', x) == Get(mem, x)
    ensures Leads(mem', at, l, k)
    decreases k
  {
    if k > 0 {
      if Live(l, at, at) {
        LiveAbove(l, at, at);
      }
      LeadsKeeps(mem, mem', at + l.head.len, l.head.len, l.tail, k - 1);
    }
  }

  /** Whatever list the headers form, it passes the same areas. */
  lemma {:induction false} SameBeginning(mem: Memory, at: int, prev: nat, l: Areas, l': Areas, k: nat)
    requires Sizes(l) && k <= Length(l) && Leads(mem, at, l, k)
    requires Represents(mem, at, prev, l') && Sizes(l') && Sum(l') == Sum(l)
    ensures k <= Length(l') && Off(l', k) == Off(l, k) && (k > 0 ==> Nth(l', k - 1).len == Nth(l, k - 1).len)
    decreases k
  {
    if k > 0 {
      SameBeginning(mem, at + l.head.len, l.head.len, l.tail, l'.tail, k - 1);
    }
  }

  /** A header of length 0 in front of the end, or one that does not point back, is the end of the heap. */
  lemma BrokenHeader(mem: Memory, begin: int, end: int, l: Areas, k: nat)
    requires WellFormed(l) && end == begin + Sum(l) && k <= Length(l) && Leads(mem, begin, l, k)
    requires var c := Get(mem, begin + Off(l, k));
             (k < Length(l) && c.next == 0) || (k > 0 && c.prev != Nth(l, k - 1).len)
    ensures Lost(mem, begin, end)
  {
    forall l' ensures !Heap(mem, begin, end, l') {
      if Heap(mem, begin, end, l') {
        SameBeginning(mem, begin, 0, l, l', k);
        HeaderAt(mem, begin, 0, l', k);
        OffFacts(l', k);
        OffFacts(l, k);
      }
    }
  }

  /** Taking an area of length 0 leaves a header that does not lead anywhere. */
  lemma TakeNothingLoses(mem: Memory, begin: int, end: int, l: Areas, i: nat)
    requires Heap(mem, begin, end, l) && i < Length(l)
    ensures Lost(TakeStores(mem, begin + Off(l, i), 0), begin, end)
  {
    var mem' := TakeStores(mem, begin + Off(l, i), 0);
    HeaderAt(mem, begin, 0, l, i);
    OffFacts(l, i);
    LeadsKeeps(mem, mem', begin, 0, l, i);
    BrokenHeader(mem', begin, end, l, i);
  }

  /** An allocation that finds an area leaves a heap exactly if the size of the area does not wrap around to 0. */
  lemma TakeHeapExactly(mem: Memory, begin: int, end: int, l: Areas, i: nat, size: nat)
    requires Heap(mem, begin, end, l) && size < WORD && i < Length(l) && Fits(Nth(l, i), AreaSize(size))
    ensures Lost(TakeStores(mem, begin + Off(l, i), AreaSize(size)), begin, end)
       <==> WORD - 2 * ALIGN < size <= WORD - ALIGN
  {
    AreaSizeExactly(size);
    if AreaSize(size) == 0 {
      TakeNothingLoses(mem, begin, end, l, i);
    } else {
      TakeHeap(mem, begin, end, l, i, AreaSize(size));
    }
  }

  // ---------------------------------------------------------------- heap_realloc

  /** Changing live payloads leaves the headers alone. */
  lemma {:induction false} FramePayload(mem: Memory, mem': Memory, at: int, prev: nat, l: Areas)
    requires Represents(mem, at, prev, l) && Sizes(l)
    requires forall x :: x >= at && !Live(l, at, x) ==> Get(mem', x) == Get(mem, x)
    ensures Represents(mem', at, prev, l)
    decreases l
  {
    if Live(l, at, at) {
      LiveAbove(l, at, at);
    }
    if l.Cons? {
      FramePayload(mem, mem', at + l.head.len, l.head.len, l.tail);
    }
  }

  lemma {:induction false} UsedAreaHeader(mem: Memory, at: int, prev: nat, l: Areas, a: int, len: nat)
    requires Represents(mem, at, prev, l) && UsedArea(l, at, a, len)
    ensures Get(mem, a).next == len && Get(mem, a).used
    decreases l
  {
    if UsedArea(l.tail, at + l.head.len, a, len) {
      UsedAreaHeader(mem, at + l.head.len, l.head.len, l.tail, a, len);
    }
  }

  lemma {:induction false} AllocKeepsArea(l: Areas, at: int, n: nat, oom: seq<nat>, a: int, len: nat)
    requires WellFormed(l) && Pages(oom) && UsedArea(l, at, a, len)
    ensures var (t, i) := Alloc(l, n, oom);
            UsedArea(t, at, a, len) && (i.Some? ==> a != at + Off(t, i.value))
    decreases |oom|
  {
    var fit := LastFit(l, n);
    if fit.Some? {
      TakeKeepsArea(l, at, fit.value, n, a, len);
      TakeKeepsOff(l, fit.value, n);
    } else if oom != [] {
      PagesAligned(oom[0]);
      AppendKeeps(l, oom[0] * PAGE_SIZE);
      AppendKeepsArea(l, at, oom[0] * PAGE_SIZE, a, len);
      AllocKeepsArea(Append(l, oom[0] * PAGE_SIZE), at, n, oom[1..], a, len);
    }
  }

  lemma {:induction false} TakeKeepsOff(l: Areas, i: nat, n: nat)
    requires i < Length(l) && n <= Nth(l, i).len
    ensures Off(Take(l, i, n), i) == Off(l, i)
    decreases i
  {
    if i > 0 {
      TakeKeepsOff(l.tail, i - 1, n);
    }
  }

  lemma {:induction false} FreeKeepsArea(l: Areas, at: int, i: nat, a: int, len: nat)
    requires Sizes(l) && i < Length(l) && UsedArea(l, at, a, len) && a != at + Off(l, i)
    ensures UsedArea(Free(l, i), at, a, len)
    decreases i
  {
    if i > 0 && UsedArea(l.tail, at + l.head.len, a, len) {
      FreeKeepsArea(l.tail, at + l.head.len, i - 1, a, len);
    }
  }

  /** Every cell of the payload at `p` is found again behind `q`. */
  ghost predicate Copied(mem: Memory, p: int, mem': Memory, q: int, len: nat) {
    forall k :: 0 <= k < len && k % ALIGN == 0 ==> Get(mem', q + k) == Get(mem, p + k)
  }

  /** A copy into the payload at `q` keeps the heap. */
  lemma CopyHeap(mem: Memory, mem': Memory, begin: int, end: int, l: Areas, q: int, len: nat)
    requires Heap(mem, begin, end, l) && UsedArea(l, begin, q - ALIGN, Get(mem, q - ALIGN).next)
    requires len + ALIGN <= Get(mem, q - ALIGN).next
    requires forall x :: !(q <= x < q + len) ==> Get(mem', x) == Get(mem, x)
    ensures Heap(mem', begin, end, l)
  {
    forall x | x >= begin && !Live(l, begin, x) ensures Get(mem', x) == Get(mem, x) {
      if q <= x < q + len {
        UsedAreaIsLive(l, begin, q - ALIGN, Get(mem, q - ALIGN).next, x);
      }
    }
    FramePayload(mem, mem', begin, 0, l);
  }

  /** The `memcpy` of `heap_realloc`, as one step. */
  lemma {:induction false} Copying(mem: Memory, p: int, q: int, bytes: nat) returns (mem': Memory)
    ensures forall x :: !(q <= x < q + bytes) ==> Get(mem', x) == Get(mem, x)
    ensures Copied(mem, p, mem', q, bytes)
  {
    mem' := mem;
    if bytes > 0 {
      var rest := Copying(mem, p, q, bytes - 1);
      mem' := rest[q + (bytes - 1) := Get(mem, p + (bytes - 1))];
    }
  }

  /** In `mem0` the payload at `p` may contain anything; `mem'` is the memory after copying it to `q`. */
  ghost predicate Moved(mem: Memory, p: int, q: int, bytes: nat, mem0: Memory, mem': Memory) {
    && (forall x :: !(p <= x < p + bytes) ==> Get(mem0, x) == Get(mem, x))
    && (forall x :: !(q <= x < q + bytes) ==> Get(mem', x) == Get(mem0, x))
    && Copied(mem0, p, mem', q, bytes)
  }

  /** Whatever the payload at `p` contains, the heap survives the copy. */
  ghost predicate CopyIsSafe(mem: Memory, begin: int, end: int, l: Areas, p: int, q: int, bytes: nat) {
    forall mem0, mem' :: Moved(mem, p, q, bytes, mem0, mem') ==> Heap(mem', begin, end, l)
  }

  /** Some contents of the payload at `p` leave no heap at all. */
  ghost predicate CopyCanLose(mem: Memory, begin: int, end: int, p: int, q: int, bytes: nat) {
    exists mem0, mem' :: Moved(mem, p, q, bytes, mem0, mem') && Lost(mem', begin, end)
  }

  lemma GrowingKeeps(mem: Memory, begin: int, end: int, l: Areas, p: int, q: int, bytes: nat, room: nat, mem0: Memory, mem': Memory)
    requires Heap(mem, begin, end, l)
    requires UsedArea(l, begin, p - ALIGN, ALIGN + bytes) && UsedArea(l, begin, q - ALIGN, ALIGN + room)
    requires bytes <= room && Moved(mem, p, q, bytes, mem0, mem')
    ensures Heap(mem', begin, end, l)
  {
    UsedAreaHeader(mem, begin, 0, l, p - ALIGN, ALIGN + bytes);
    CopyHeap(mem, mem0, begin, end, l, p, bytes);
    UsedAreaHeader(mem0, begin, 0, l, q - ALIGN, ALIGN + room);
    CopyHeap(mem0, mem', begin, end, l, q, bytes);
  }

  /** In front of the header behind `q`, the copy changes only payloads. */
  lemma CopyLeads(mem: Memory, begin: int, end: int, l: Areas, p: int, q: int, bytes: nat, mem0: Memory, mem': Memory, i: nat)
    requires Heap(mem, begin, end, l) && UsedArea(l, begin, p - ALIGN, ALIGN + bytes)
    requires i < Length(l) && Nth(l, i).used && begin + Off(l, i) == q - ALIGN && Moved(mem, p, q, bytes, mem0, mem')
    ensures Leads(mem', begin, l, i + 1)
  {
    OffNext(l, i);
    NthUsedArea(l, begin, i);
    forall x | begin <= x < begin + Off(l, i + 1) && !Live(l, begin, x) ensures Get(mem', x) == Get(mem, x) {
      if p <= x < p + bytes {
        UsedAreaIsLive(l, begin, p - ALIGN, ALIGN + bytes, x);
      }
      if q <= x {
        UsedAreaIsLive(l, begin, q - ALIGN, Nth(l, i).len, x);
      }
    }
    LeadsKeeps(mem, mem', begin, 0, l, i + 1);
  }

  /** If the new area is smaller, the header behind it becomes a part of the payload. */
  lemma ShrinkingOverwritesHeader(mem: Memory, begin: int, end: int, l: Areas, p: int, q: int, bytes: nat, room: nat,
                                  mem0: Memory, mem': Memory)
    requires Heap(mem, begin, end, l)
    requires UsedArea(l, begin, p - ALIGN, ALIGN + bytes) && UsedArea(l, begin, q - ALIGN, ALIGN + room)
    requires room < bytes && Moved(mem, p, q, bytes, mem0, mem')
    ensures Get(mem', q + room) == Get(mem0, p + room)
    ensures Get(mem0, p + room).prev != ALIGN + room ==> Lost(mem', begin, end)
  {
    UsedAreaAbove(l, begin, q - ALIGN, ALIGN + room);
    assert room % ALIGN == 0;
    UsedAreaIndex(l, begin, q - ALIGN, ALIGN + room);
    var i := IndexOf(l, begin, q - ALIGN);
    OffNext(l, i);
    CopyLeads(mem, begin, end, l, p, q, bytes, mem0, mem', i);
    if Get(mem0, p + room).prev != ALIGN + room {
      BrokenHeader(mem', begin, end, l, i + 1);
    }
  }

  lemma ShrinkingLoses(mem: Memory, begin: int, end: int, l: Areas, p: int, q: int, bytes: nat, room: nat)
    requires Heap(mem, begin, end, l)
    requires UsedArea(l, begin, p - ALIGN, ALIGN + bytes) && UsedArea(l, begin, q - ALIGN, ALIGN + room)
    requires room < bytes
    ensures CopyCanLose(mem, begin, end, p, q, bytes)
  {
    var mem0 := mem[p + room := Cell(0, false, 0, 0)];
    var mem' := Copying(mem0, p, q, bytes);
    assert Moved(mem, p, q, bytes, mem0, mem');
    ShrinkingOverwritesHeader(mem, begin, end, l, p, q, bytes, room, mem0, mem');
  }

  /**
   `heap_realloc` copies the whole old payload: the heap survives whatever it contains exactly if the new area
   is not smaller than the old one; else there are contents, such as zeros, that leave no heap at all.
   */
  lemma CopyExactly(mem: Memory, begin: int, end: int, l: Areas, p: int, q: int, bytes: nat, room: nat)
    requires Heap(mem, begin, end, l)
    requires UsedArea(l, begin, p - ALIGN, ALIGN + bytes) && UsedArea(l, begin, q - ALIGN, ALIGN + room)
    ensures CopyIsSafe(mem, begin, end, l, p, q, bytes) <==> bytes <= room
    ensures CopyCanLose(mem, begin, end, p, q, bytes) <==> bytes > room
  {
    if bytes <= room {
      forall mem0, mem' | Moved(mem, p, q, bytes, mem0, mem') ensures Heap(mem', begin, end, l) {
        GrowingKeeps(mem, begin, end, l, p, q, bytes, room, mem0, mem');
      }
    } else {
      ShrinkingLoses(mem, begin, end, l, p, q, bytes, room);
      var mem0, mem' :| Moved(mem, p, q, bytes, mem0, mem') && Lost(mem', begin, end);
      assert !Heap(mem', begin, end, l);
    }
  }

  /** What is taken has exactly the computed size. */
  lemma TakenArea(mem: Memory, begin: int, end: int, l: Areas, i: nat, n: nat)
    requires Heap(mem, begin, end, l) && i < Length(l) && Fits(Nth(l, i), n) && n >= ALIGN && n % ALIGN == 0
    ensures UsedArea(Take(l, i, n), begin, begin + Off(l, i), n)
  {
    TakeKeeps(l, i, n);
    OffFacts(Take(l, i, n), i);
    NthUsedArea(Take(l, i, n), begin, i);
  }

  /** So the caller can tell from the old area and the size of the request whether `heap_realloc` is safe. */
  lemma ReallocExactly(mem: Memory, begin: int, end: int, l: Areas, i: nat, size: nat, p: int, bytes: nat)
    requires Heap(mem, begin, end, l) && UsedArea(l, begin, p - ALIGN, ALIGN + bytes)
    requires size < WORD && AreaSize(size) != 0 && i < Length(l) && Fits(Nth(l, i), AreaSize(size))
    ensures var a, n := begin + Off(l, i), AreaSize(size);
            var mem', l' := TakeStores(mem, a, n), Take(l, i, n);
            && (CopyIsSafe(mem', begin, end, l', p, a + ALIGN, bytes) <==> ALIGN + bytes <= AreaSize(size))
            && (CopyCanLose(mem', begin, end, p, a + ALIGN, bytes) <==> ALIGN + bytes > AreaSize(size))
  {
    var a, n := begin + Off(l, i), AreaSize(size);
    AreaSizeExactly(size);
    TakeHeap(mem, begin, end, l, i, n);
    TakeKeepsArea(l, begin, i, n, p - ALIGN, ALIGN + bytes);
    TakenArea(mem, begin, end, l, i, n);
    CopyExactly(TakeStores(mem, a, n), begin, end, Take(l, i, n), p, a + ALIGN, bytes, n - ALIGN);
  }

  /** A heap of 256 bytes: an area of 128 bytes whose payload is one cell of zeros, and 128 free bytes. */
  function SmallHeap(): Memory {
    map[64 := Cell(128, true, 0, 0), 192 := Cell(128, false, 128, 0), 320 := Cell(0, false, 128, 0)]
  }

  lemma SmallHeapIsHeap()
    ensures var l := Cons(Area(128, true), Cons(Area(128, false), Nil));
            Heap(SmallHeap(), 64, 320, l) && LastFit(l, AreaSize(0)) == Some(1)
  {
    var mem, last := SmallHeap(), Cons(Area(128, false), Nil);
    assert Represents(mem, 320, 128, Nil);
    assert Represents(mem, 192, 128, last);
    assert LastFit(last, 64) == Some(0);
  }

  lemma FirstCell(mem: Memory, p: int, mem': Memory, q: int, bytes: nat)
    requires Copied(mem, p, mem', q, bytes) && bytes > 0
    ensures Get(mem', q) == Get(mem, p)
  {
    var k := 0;
    assert k % ALIGN == 0;
    assert Get(mem', q + k) == Get(mem, p + k);
  }

  /**
   `heap_realloc(p, 0)` for its area allocates the area at 192, copies from 128 to 256 and frees the area at 64.
   Nothing is left that could be a heap.
   */
  lemma ReallocToNothingLoses(copied: Memory)
    requires var mem := TakeStores(SmallHeap(), 192, AreaSize(0)); Moved(mem, 128, 256, 64, mem, copied)
    ensures Lost(FreeStores(copied, 64, 320), 64, 320)
  {
    var mem := TakeStores(SmallHeap(), 192, 64);
    FirstCell(mem, 128, copied, 256, 64);
    SmallHeaders(copied);
  }

  lemma SmallHeaders(copied: Memory)
    requires Get(copied, 64) == Cell(128, true, 0, 0) && Get(copied, 192).next == 64 && Get(copied, 192).used
    requires Get(copied, 256).prev == 0
    ensures Lost(FreeStores(copied, 64, 320), 64, 320)
  {
    var two := Cons(Area(64, true), Cons(Area(64, false), Nil));
    var l, mem := Cons(Area(128, false), two), FreeStores(copied, 64, 320);
    assert Sum(two) == 128 && Off(two, 1) == 64 && Nth(two, 0) == Area(64, true);
    assert Leads(mem, 192, two, 1);
    BrokenHeader(mem, 64, 320, l, 2);
  }

  /** After the old area was freed, the copy is still complete and the new area still used. */
  lemma CopySurvivesFree(mem: Memory, begin: int, end: int, l: Areas, a: int, len: nat, b: int, len': nat)
    requires Heap(mem, begin, end, l) && UsedArea(l, begin, a, len) && UsedArea(l, begin, b, len') && a != b
    ensures UsedArea(FreedAt(l, begin, a), begin, b, len')
    ensures forall x :: b + ALIGN <= x < b + len' ==> Get(FreeStores(mem, a, end), x) == Get(mem, x)
    ensures Get(FreeStores(mem, a, end), b).next == len'
  {
    FreeHeap(mem, begin, end, l, a, len);
    UsedAreaIndex(l, begin, a, len);
    FreeKeepsArea(l, begin, IndexOf(l, begin, a), b, len');
    UsedAreaHeader(FreeStores(mem, a, end), begin, 0, FreedAt(l, begin, a), b, len');
    UsedAreasApart(l, begin, a, len, b, len');
    forall x | b + ALIGN <= x < b + len' ensures Get(FreeStores(mem, a, end), x) == Get(mem, x) {
      UsedAreaIsLive(l, begin, b, len', x);
    }
  }

  /** No payload byte is lost or changed, except in the area at `a` and in the `n` bytes at `q`. */
  ghost predicate PreservesExcept(mem: Memory, l: Areas, mem': Memory, l': Areas, begin: int, a: int, len: nat, q: int, n: nat) {
    forall x :: Live(l, begin, x) && !(a <= x < a + len) && !(q <= x < q + n)
      ==> Live(l', begin, x) && Get(mem', x) == Get(mem, x)
  }

  /** Two payloads do not overlap. */
  lemma PayloadsApart(mem: Memory, begin: int, end: int, l: Areas, p: int, q: int)
    requires Heap(mem, begin, end, l) && Payload(mem, begin, l, p, 0) && Payload(mem, begin, l, q, 0) && p != q
    ensures var len, len' := Get(mem, p - ALIGN).next, Get(mem, q - ALIGN).next;
            && len >= ALIGN && (len - ALIGN) % ALIGN == 0
            && (len <= len' ==> p + (len - ALIGN) <= q || q + (len - ALIGN) <= p)
  {
    var len, len' := Get(mem, p - ALIGN).next, Get(mem, q - ALIGN).next;
    UsedAreaAbove(l, begin, p - ALIGN, len);
    UsedAreasApart(l, begin, p - ALIGN, len, q - ALIGN, len');
  }

  /** What moving the payload at `p` into the area at `q` does, after the copy and the stores of `heap_free`. */
  lemma MoveHeap(mem: Memory, mem': Memory, begin: int, end: int, l: Areas, p: int, len: nat, q: int, len': nat)
    requires Heap(mem, begin, end, l) && UsedArea(l, begin, p - ALIGN, len) && UsedArea(l, begin, q - ALIGN, len')
    requires p != q && ALIGN <= len <= len' && Get(mem, q - ALIGN).next == len'
    requires Copied(mem, p, mem', q, len - ALIGN)
    requires forall x :: !(q <= x < q + (len - ALIGN)) ==> Get(mem', x) == Get(mem, x)
    ensures var mem2, l2 := FreeStores(mem', p - ALIGN, end), FreedAt(l, begin, p - ALIGN);
            && Heap(mem2, begin, end, l2) && UsedArea(l2, begin, q - ALIGN, len') && Get(mem2, q - ALIGN).next == len'
            && Copied(mem, p, mem2, q, len - ALIGN)
            && PreservesExcept(mem, l, mem2, l2, begin, p - ALIGN, len, q, len - ALIGN)
  {
    CopyHeap(mem, mem', begin, end, l, q, len - ALIGN);
    FreeHeap(mem', begin, end, l, p - ALIGN, len);
    CopySurvivesFree(mem', begin, end, l, p - ALIGN, len, q - ALIGN, len');
  }

  /** Allocating and moving, seen from before the allocation. */
  lemma AllocThenMove(mem0: Memory, l0: Areas, mem1: Memory, l1: Areas, mem2: Memory, l2: Areas,
                      begin: int, p: int, len: nat, q: int)
    requires UsedArea(l0, begin, p - ALIGN, len) && len >= ALIGN && Preserves(mem0, l0, mem1, l1, begin)
    requires Fresh(l0, begin, mem1, q) && len <= Get(mem1, q - ALIGN).next
    requires Copied(mem1, p, mem2, q, len - ALIGN)
    requires PreservesExcept(mem1, l1, mem2, l2, begin, p - ALIGN, len, q, len - ALIGN)
    ensures Copied(mem0, p, mem2, q, len - ALIGN)
    ensures PreservesOthers(mem0, l0, mem2, l2, begin, p - ALIGN, len)
  {
    forall k | 0 <= k < len - ALIGN && k % ALIGN == 0 ensures Get(mem2, q + k) == Get(mem0, p + k) {
      UsedAreaIsLive(l0, begin, p - ALIGN, len, p + k);
    }
  }
}
