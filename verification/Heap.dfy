/** The heap object: `heap_alloc`, `heap_free`, `heap_append`, `heap_realloc` on the memory itself. */
module HeapObject {
  import opened Options
  import opened HeapAreas
  import opened HeapMemory

  class Heap {
    var mem: Memory
    const begin: int
    var end: int
    ghost var areas: Areas

    ghost predicate Valid()
      reads this
    {
      HeapMemory.Heap(mem, begin, end, areas)
    }

    /** The header at the end is the last one of its page; only then pages can be appended, see `MergeNeedsAlignedEnd`. */
    predicate Extendable()
      reads this
    {
      (end + ALIGN) % PAGE_SIZE == 0
    }

    /** `Heap::init_arch`: one free area. */
    constructor (mem: Memory, begin: int, end: int)
      requires 0 < begin && begin % ALIGN == 0 && begin < end && end % ALIGN == 0
      ensures Valid() && areas == Cons(Area(end - begin, false), Nil)
      ensures this.begin == begin && this.end == end
    {
      this.begin, this.end := begin, end;
      var m := mem[end := Get(mem, end).(next := 0, used := false, prev := end - begin)]
                  [begin := Get(mem, begin).(next := end - begin, used := false, prev := 0)];
      InitHeap(m, begin, end);
      this.mem := m;
      areas := Cons(Area(end - begin, false), Nil);
    }

    /** The backward scan of `heap_alloc`: the last area that fits, or else the first area. */
    method Scan(n: nat) returns (a: int, ghost i: nat)
      requires Valid()
      ensures i < Length(areas) && a == begin + Off(areas, i)
      ensures LastFit(areas, n) == if Fits(Nth(areas, i), n) then Some(i) else None
    {
      i := Length(areas) - 1;
      OffNext(areas, i);
      HeaderAt(mem, begin, 0, areas, i + 1);
      a := end - Get(mem, end).prev;
      var more := true;
      while more
        invariant i < Length(areas) && a == begin + Off(areas, i)
        invariant LastFit(areas, n).Some? ==> LastFit(areas, n).value <= i
        invariant !more ==> i == 0 || Fits(Nth(areas, i), n)
        decreases i, more
      {
        HeaderAt(mem, begin, 0, areas, i);
        if !Get(mem, a).used && Get(mem, a).next >= n {
          more := false;
        } else {
          a := a - Get(mem, a).prev;
          if i > 0 {
            i := i - 1;
            OffNext(areas, i);
            HeaderAt(mem, begin, 0, areas, i);
            if i > 0 {
              OffNext(areas, i - 1);
            }
          }
          more := Get(mem, a).prev > 0;
        }
      }
      if Fits(Nth(areas, i), n) {
        LastFitIsLast(areas, n, i);
      }
    }

    /** `heap_append`. */
    method Append(pages: nat)
      requires Valid() && Extendable() && pages >= 1
      modifies this
      ensures Valid() && Extendable()
      ensures areas == HeapAreas.Append(old(areas), pages * PAGE_SIZE) && end == old(end) + pages * PAGE_SIZE
      ensures Preserves(old(mem), old(areas), mem, areas, begin)
    {
      AppendHeap(mem, begin, end, areas, pages);
      var newEnd := StoreAppend(pages);
      end := newEnd;
      areas := HeapAreas.Append(areas, pages * PAGE_SIZE);
    }

    method StoreAppend(pages: nat) returns (newEnd: int)
      requires end <= NewEnd(end, pages)
      modifies this`mem
      ensures newEnd == NewEnd(end, pages) && mem == AppendStores(old(mem), end, pages)
    {
      var size := pages * PAGE_SIZE;
      newEnd := RoundUpPage(end) + size - ALIGN;
      mem := mem[newEnd := Get(mem, newEnd).(next := 0, used := false)];
      var prev := end - Get(mem, end).prev;
      if Get(mem, prev).used {
        mem := mem[newEnd := Get(mem, newEnd).(prev := newEnd - end)];
        mem := mem[end := Get(mem, end).(next := newEnd - end, used := false)];
      } else {
        mem := mem[newEnd := Get(mem, newEnd).(prev := Get(mem, end).prev + size)];
        mem := mem[prev := Get(mem, prev).(next := Get(mem, prev).next + size)];
      }
    }

    method StoreTake(a: int, n: nat)
      modifies this`mem
      ensures mem == TakeStores(old(mem), a, n)
    {
      var len := Get(mem, a).next;
      if len >= n + ALIGN {
        var next := a + n;
        mem := mem[next := Get(mem, next).(next := len - n, used := false, prev := n)];
        var behind := a + len;
        mem := mem[behind := Get(mem, behind).(prev := behind - next)];
        mem := mem[a := Get(mem, a).(next := n, used := true)];
      } else {
        mem := mem[a := Get(mem, a).(used := true)];
      }
    }

    method StoreFree(a: int)
      modifies this`mem
      ensures mem == FreeStores(old(mem), a, end)
    {
      var cur := a;
      mem := mem[a := Get(mem, a).(used := false)];
      var len := Get(mem, a).next;
      var n := a + len;
      if Get(mem, a).prev > 0 {
        var p := a - Get(mem, a).prev;
        if !Get(mem, p).used {
          mem := mem[p := Get(mem, p).(next := Get(mem, p).next + len)];
          mem := mem[n := Get(mem, n).(prev := Get(mem, p).next)];
          cur := p;
        }
      }
      if n < end && !Get(mem, n).used {
        var nn := n + Get(mem, n).next;
        mem := mem[cur := Get(mem, cur).(next := Get(mem, cur).next + Get(mem, n).next)];
        mem := mem[nn := Get(mem, nn).(prev := Get(mem, cur).next)];
      }
    }

    /** The search of `heap_alloc`: extends the heap until an area fits or the callback refuses. */
    method Find(n: nat, oom: seq<nat>) returns (a: int, ghost i: nat)
      requires Valid() && Pages(oom) && (oom != [] ==> Extendable())
      modifies this
      ensures Valid() && (old(Extendable()) ==> Extendable()) && Preserves(old(mem), old(areas), mem, areas, begin)
      ensures a == 0 ==> HeapAreas.Alloc(old(areas), n, oom) == (areas, None)
      ensures a != 0 ==>
                && i < Length(areas) && Fits(Nth(areas, i), n) && a == begin + Off(areas, i)
                && HeapAreas.Alloc(old(areas), n, oom) == (Take(areas, i, n), Some(i))
    {
      var rest := oom;
      while true
        invariant Valid() && Pages(rest) && (rest != [] ==> Extendable()) && (old(Extendable()) ==> Extendable())
        invariant HeapAreas.Alloc(areas, n, rest) == HeapAreas.Alloc(old(areas), n, oom)
        invariant Preserves(old(mem), old(areas), mem, areas, begin)
        decreases |rest|
      {
        a, i := Scan(n);
        HeaderAt(mem, begin, 0, areas, i);
        if !Get(mem, a).used && Get(mem, a).next >= n {
          return;
        }
        if rest == [] {
          a := 0;
          return;
        }
        Append(rest[0]);
        rest := rest[1..];
      }
    }

    /** The end of `heap_alloc`, once an area was found. */
    method TakeArea(a: int, ghost i: nat, n: nat)
      requires Valid() && i < Length(areas) && Fits(Nth(areas, i), n) && a == begin + Off(areas, i)
      requires n % ALIGN == 0 && (n == 0 || n >= ALIGN)
      modifies this`mem, this`areas
      ensures areas == Take(old(areas), i, n) && Off(areas, i) == old(Off(areas, i))
      ensures n == 0 ==> Lost(mem, begin, end)
      ensures n != 0 ==>
                && Valid() && Preserves(old(mem), old(areas), mem, areas, begin)
                && Payload(mem, begin, areas, a + ALIGN, n - ALIGN) && Fresh(old(areas), begin, mem, a + ALIGN)
    {
      TakeKeepsOff(areas, i, n);
      if n == 0 {
        TakeNothingLoses(mem, begin, end, areas, i);
      } else {
        TakeResult(mem, begin, end, areas, i, n);
      }
      StoreTake(a, n);
      areas := Take(areas, i, n);
    }

    /**
     `heap_alloc`; the null pointer is 0.  `oom` says what the callback appends before it refuses.  The area
     has room for the request exactly if its size does not wrap around, see `AreaSizeExactly`; if it wraps around
     to 0 and an area is free, the heap is lost.
     */
    method Alloc(size: nat, oom: seq<nat>) returns (p: int)
      requires Valid() && size < WORD && Pages(oom) && (oom != [] ==> Extendable())
      modifies this
      ensures var (t, i) := HeapAreas.Alloc(old(areas), AreaSize(size), oom);
              areas == t && p == if i.None? then 0 else begin + Off(t, i.value) + ALIGN
      ensures p != 0 && AreaSize(size) == 0 ==> Lost(mem, begin, end)
      ensures p == 0 || AreaSize(size) != 0 ==>
                && Valid() && (old(Extendable()) ==> Extendable())
                && Preserves(old(mem), old(areas), mem, areas, begin)
      ensures p != 0 && AreaSize(size) != 0 ==>
                && ALIGN <= AreaSize(size) && Payload(mem, begin, areas, p, AreaSize(size) - ALIGN)
                && Fresh(old(areas), begin, mem, p)
    {
      var n := AreaSize(size);
      AreaSizeExactly(size);
      var a, i := Find(n, oom);
      if a == 0 {
        return 0;
      }
      TakeArea(a, i, n);
      p := a + ALIGN;
    }

    /** `heap_free`; `double` says that the double-free callback was called. */
    method Free(p: int) returns (double: bool)
      requires Valid() && (p == 0 || !Get(mem, p - ALIGN).used || Payload(mem, begin, areas, p, 0))
      modifies this
      ensures Valid()
      ensures double == (p != 0 && !old(Get(mem, p - ALIGN).used))
      ensures p == 0 || double ==> mem == old(mem) && areas == old(areas)
      ensures p != 0 && !double ==>
                && areas == FreedAt(old(areas), begin, p - ALIGN)
                && PreservesOthers(old(mem), old(areas), mem, areas, begin, p - ALIGN, old(Get(mem, p - ALIGN).next))
    {
      if p == 0 {
        return false;
      }
      var a := p - ALIGN;
      if !Get(mem, a).used {
        return true;
      }
      FreeHeap(mem, begin, end, areas, a, Get(mem, a).next);
      StoreFree(a);
      areas := FreedAt(areas, begin, a);
      return false;
    }

    /** The `memcpy` of `heap_realloc`. */
    method Copy(p: int, q: int, len: nat)
      requires len % ALIGN == 0 && (p + len <= q || q + len <= p)
      modifies this`mem
      ensures Copied(old(mem), p, mem, q, len)
      ensures forall x :: !(q <= x < q + len) ==> Get(mem, x) == Get(old(mem), x)
    {
      var k := 0;
      while k < len
        invariant 0 <= k <= len && k % ALIGN == 0
        invariant Copied(old(mem), p, mem, q, k)
        invariant forall x :: !(q <= x < q + k) ==> Get(mem, x) == Get(old(mem), x)
      {
        mem := mem[q + k := Get(mem, p + k)];
        k := k + ALIGN;
      }
    }

    /** The second half of `heap_realloc`: copy the payload at `p` to `q` and free `p`. */
    method Move(p: int, q: int)
      requires Valid() && Payload(mem, begin, areas, p, 0) && Payload(mem, begin, areas, q, 0) && p != q
      requires Get(mem, p - ALIGN).next <= Get(mem, q - ALIGN).next
      modifies this
      ensures Valid() && areas == FreedAt(old(areas), begin, p - ALIGN)
      ensures Get(mem, q - ALIGN).next == old(Get(mem, q - ALIGN).next)
      ensures Payload(mem, begin, areas, q, 0)
      ensures Copied(old(mem), p, mem, q, old(Get(mem, p - ALIGN).next) - ALIGN)
      ensures old(Get(mem, p - ALIGN).next) >= ALIGN
      ensures PreservesExcept(old(mem), old(areas), mem, areas, begin, p - ALIGN, old(Get(mem, p - ALIGN).next),
                              q, old(Get(mem, p - ALIGN).next) - ALIGN)
    {
      var a := p - ALIGN;
      var len := Get(mem, a).next;
      ghost var len' := Get(mem, q - ALIGN).next;
      PayloadsApart(mem, begin, end, areas, p, q);
      Copy(p, q, len - ALIGN);
      MoveHeap(old(mem), mem, begin, end, areas, p, len, q, len');
      StoreFree(a);
      areas := FreedAt(areas, begin, a);
    }

    /** The first half of `heap_realloc`: the area at `p` stays where it is. */
    method AllocBeside(p: int, size: nat, oom: seq<nat>) returns (q: int)
      requires Valid() && size < WORD && AreaSize(size) != 0 && Pages(oom) && (oom != [] ==> Extendable())
      requires Payload(mem, begin, areas, p, 0)
      modifies this
      ensures Valid() && Preserves(old(mem), old(areas), mem, areas, begin) && ALIGN <= AreaSize(size)
      ensures areas == HeapAreas.Alloc(old(areas), AreaSize(size), oom).0
      ensures q == 0 <==> HeapAreas.Alloc(old(areas), AreaSize(size), oom).1.None?
      ensures Payload(mem, begin, areas, p, 0) && Get(mem, p - ALIGN).next == old(Get(mem, p - ALIGN).next)
      ensures q != 0 ==>
                p != q && Payload(mem, begin, areas, q, AreaSize(size) - ALIGN) && Fresh(old(areas), begin, mem, q)
    {
      ghost var a, len := p - ALIGN, Get(mem, p - ALIGN).next;
      AreaSizeExactly(size);
      AllocKeepsArea(areas, begin, AreaSize(size), oom, a, len);
      q := Alloc(size, oom);
      UsedAreaHeader(mem, begin, 0, areas, a, len);
    }

    /**
     `heap_realloc` for an area that is at least as large as the old one; see `ReallocExactly` for others.
     It fails exactly if the allocation does, and then the old area stays as it is; if it succeeds, the old
     payload is found at the new place and no other payload changes.
     */
    method Realloc(p: int, size: nat, oom: seq<nat>) returns (q: int)
      requires Valid() && size < WORD && AreaSize(size) != 0 && Pages(oom) && (oom != [] ==> Extendable())
      requires p != 0 ==> Payload(mem, begin, areas, p, 0) && Get(mem, p - ALIGN).next <= AreaSize(size)
      modifies this
      ensures Valid() && ALIGN <= AreaSize(size)
      ensures q == 0 <==> HeapAreas.Alloc(old(areas), AreaSize(size), oom).1.None?
      ensures q == 0 || p == 0 ==>
                && areas == HeapAreas.Alloc(old(areas), AreaSize(size), oom).0
                && Preserves(old(mem), old(areas), mem, areas, begin)
      ensures q != 0 ==> Payload(mem, begin, areas, q, AreaSize(size) - ALIGN)
      ensures q != 0 && p != 0 ==>
                var len := old(Get(mem, p - ALIGN).next);
                && areas == FreedAt(HeapAreas.Alloc(old(areas), AreaSize(size), oom).0, begin, p - ALIGN)
                && Copied(old(mem), p, mem, q, len - ALIGN)
                && PreservesOthers(old(mem), old(areas), mem, areas, begin, p - ALIGN, len)
    {
      AreaSizeExactly(size);
      if p == 0 {
        q := Alloc(size, oom);
        return;
      }
      ghost var len := Get(mem, p - ALIGN).next;
      q := AllocBeside(p, size, oom);
      if q != 0 {
        ghost var mem1, areas1 := mem, areas;
        Move(p, q);
        AllocThenMove(old(mem), old(areas), mem1, areas1, mem, areas, begin, p, len, q);
      }
    }

    /** `heap_free_memory`: walks over all areas. */
    method FreeMemory() returns (total: nat)
      requires Valid()
      ensures total == FreeBytes(areas) && total + UsedBytes(areas) == end - begin
    {
      FreePlusUsed(areas);
      total := 0;
      var a := begin;
      ghost var rest, prev: nat := areas, 0;
      while a < end
        invariant Represents(mem, a, prev, rest) && Sizes(rest) && a + Sum(rest) == end
        invariant total + FreeBytes(rest) == FreeBytes(areas)
        decreases end - a
      {
        if !Get(mem, a).used {
          total := total + Get(mem, a).next;
        }
        a, rest, prev := a + Get(mem, a).next, rest.tail, rest.head.len;
      }
    }
  }
}
