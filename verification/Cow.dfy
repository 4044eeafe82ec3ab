/**
 Copy-on-write in the pager: regions of several address spaces that share physical memory.

 A region belongs to a dataspace of an address space.  Its pages come from a `PhysMem` object, which
 names a piece of physical memory (its gate) and may have an owner: an address space whose caches may
 hold newer data, so that copies are taken through its mapping.  Cloning an address space lets the
 child's regions refer to the same `PhysMem` objects; the first fault on such a region separates it.

 The lemmas show that all of this is invisible: the pager refines the simple machine in which every
 region has its own contents.
 */
module Cow {
  import opened Options

  type Page = int
  type AsId = nat
  type GateId = nat
  type MemId = nat

  /** A dataspace: an address space and a start address in it. */
  datatype Space = Space(aspace: AsId, addr: nat)

  /** A region: a dataspace and an offset in it. */
  datatype Key = Key(space: Space, off: nat)

  datatype Mapping = Mapping(gate: GateId, write: bool)

  /** `pte` is what the kernel was told with `createmap`; `is_mapped` says that there is one. */
  datatype Region = Region(mem: MemId, memoff: nat, size: nat, cow: bool, pte: Option<Mapping>)

  datatype PhysMem = PhysMem(gate: GateId, owner: Option<AsId>, ownerVirt: nat, refs: nat)

  datatype World = World(
    gates: map<GateId, seq<Page>>,
    mems: map<MemId, PhysMem>,
    regs: map<Key, Region>,
    writable: map<Space, bool>        // whether the flags of the dataspace contain PTE_W
  )

  // ---------------------------------------------------------------- access

  predicate Writable(w: World, s: Space) {
    s in w.writable && w.writable[s]
  }

  function GatePages(w: World, g: GateId): seq<Page> {
    if g in w.gates then w.gates[g] else []
  }

  function Part(s: seq<Page>, at: nat, len: nat): seq<Page> {
    if at + len <= |s| then s[at..at + len] else []
  }

  /** The contents of a region: the pages of its physical memory. */
  function Content(w: World, k: Key): seq<Page> {
    if k in w.regs && w.regs[k].mem in w.mems
    then Part(GatePages(w, w.mems[w.regs[k].mem].gate), w.regs[k].memoff, w.regs[k].size)
    else []
  }

  /** What the process sees through its page table. */
  function Seen(w: World, k: Key): seq<Page> {
    if k in w.regs && w.regs[k].pte.Some?
    then Part(GatePages(w, w.regs[k].pte.value.gate), w.regs[k].memoff, w.regs[k].size)
    else []
  }

  ghost function Sharers(w: World, m: MemId): set<Key> {
    set k | k in w.regs && w.regs[k].mem == m
  }

  // ---------------------------------------------------------------- operations

  /** `Region::map`. */
  function Map(w: World, k: Key, write: bool): World
    requires k in w.regs && w.regs[k].mem in w.mems
  {
    var r := w.regs[k];
    w.(regs := w.regs[k := r.(pte := Some(Mapping(w.mems[r.mem].gate, write)))])
  }

  /** The first fault: a region of the dataspace gets new memory with the given pages and is mapped. */
  function Populate(w: World, k: Key, memoff: nat, size: nat, pages: seq<Page>, m: MemId, g: GateId): World {
    var w1 := w.(gates := w.gates[g := pages],
                 mems := w.mems[m := PhysMem(g, Some(k.space.aspace), k.space.addr, 1)],
                 regs := w.regs[k := Region(m, memoff, size, false, None)]);
    Map(w1, k, Writable(w, k.space))
  }

  /** Dropping a reference; the last one takes the object and its memory along. */
  function Unref(w: World, m: MemId): World
    requires m in w.mems && w.mems[m].refs > 0
  {
    if w.mems[m].refs == 1 then w.(mems := w.mems - {m}, gates := w.gates - {w.mems[m].gate})
    else w.(mems := w.mems[m := w.mems[m].(refs := w.mems[m].refs - 1)])
  }

  /** `copy_block`: where the pages of the copy come from. */
  function CopySource(w: World, k: Key): seq<Page>
    requires k in w.regs && w.regs[k].mem in w.mems
  {
    var r := w.regs[k];
    var p := w.mems[r.mem];
    if p.owner.Some? then Seen(w, Key(Space(p.owner.value, p.ownerVirt), k.off))
    else Part(GatePages(w, p.gate), r.memoff, r.size)
  }

  /** `Region::copy`: the region gets memory of its own; `m` and `g` are the new objects, if needed. */
  function Copy(w: World, k: Key, m: MemId, g: GateId): World
    requires k in w.regs && w.regs[k].mem in w.mems && w.mems[w.regs[k].mem].refs > 0
  {
    var r := w.regs[k];
    var p := w.mems[r.mem];
    var me := k.space.aspace;
    if p.refs == 1 then
      w.(mems := w.mems[r.mem := p.(owner := Some(me), ownerVirt := k.space.addr)])
    else
      var w1 := w.(gates := w.gates[g := CopySource(w, k)]);
      if p.owner == Some(me) then
        // the others get the copy; we keep the old memory in a new object
        w1.(mems := w1.mems[r.mem := p.(gate := g, owner := None, refs := p.refs - 1)]
                           [m := PhysMem(p.gate, Some(me), p.ownerVirt, 1)],
            regs := w1.regs[k := r.(mem := m)])
      else
        w1.(mems := w1.mems[r.mem := p.(refs := p.refs - 1)]
                           [m := PhysMem(g, Some(me), k.space.addr, 1)],
            regs := w1.regs[k := r.(mem := m)])
  }

  /** The fault on a region with memory (`handle_pf` without the first case). */
  function Fault(w: World, k: Key, m: MemId, g: GateId): World
    requires k in w.regs && w.regs[k].mem in w.mems && w.mems[w.regs[k].mem].refs > 0 && m !in w.mems
  {
    var r := w.regs[k];
    if r.cow then
      var w1 := w.(regs := w.regs[k := r.(cow := false)]);
      var w2 := if Writable(w, k.space) then Copy(w1, k, m, g) else w1;
      Map(w2, k, Writable(w, k.space))
    else if r.pte.Some? then w
    else Map(w, k, Writable(w, k.space))
  }

  /** One iteration of the loop in `DataSpace::inherit`: the child gets a region that shares the memory. */
  function Share(w: World, k: Key, child: AsId): World
    requires k in w.regs && w.regs[k].mem in w.mems
  {
    var write := Writable(w, k.space);
    var w1 := if !w.regs[k].cow && write then Map(w, k, false) else w;
    var r := w1.regs[k];
    var k' := Key(Space(child, k.space.addr), k.off);
    w1.(regs := w1.regs[k := r.(cow := r.cow || write)][k' := r.(cow := true, pte := None)],
        mems := w1.mems[r.mem := w1.mems[r.mem].(refs := w1.mems[r.mem].refs + 1)],
        writable := w1.writable[k'.space := write])
  }

  /** The destruction of a region. */
  function Drop(w: World, k: Key): World
    requires k in w.regs && w.regs[k].mem in w.mems && w.mems[w.regs[k].mem].refs > 0
  {
    Unref(w.(regs := w.regs - {k}), w.regs[k].mem)
  }

  /** The process writes a page through its page table. */
  function Store(w: World, k: Key, i: nat, v: Page): World
    requires k in w.regs && w.regs[k].pte.Some? && i < w.regs[k].size
  {
    var r := w.regs[k];
    var g := r.pte.value.gate;
    var pages := GatePages(w, g);
    if r.memoff + i < |pages| then w.(gates := w.gates[g := pages[r.memoff + i := v]]) else w
  }

  // ---------------------------------------------------------------- invariant

  /** The references of a region and its memory are in order. */
  ghost predicate RegionOk(w: World, k: Key)
    requires k in w.regs
  {
    var r := w.regs[k];
    && k.space in w.writable
    && r.mem in w.mems
    && w.mems[r.mem].gate in w.gates
    && r.memoff + r.size <= |w.gates[w.mems[r.mem].gate]|
    && (r.pte.Some? ==> r.pte.value.gate == w.mems[r.mem].gate)
    && (r.pte.Some? && r.pte.value.write ==> Writable(w, k.space) && !r.cow)
  }

  /** A writable region: it either has its memory for itself and can be written, or it is marked copy-on-write. */
  ghost predicate WritableOk(w: World, k: Key)
    requires k in w.regs && w.regs[k].mem in w.mems
  {
    var r := w.regs[k];
    var p := w.mems[r.mem];
    Writable(w, k.space) ==>
      && r.memoff == 0
      && (!r.cow ==> p.refs == 1 && p.owner == Some(k.space.aspace) && p.ownerVirt == k.space.addr)
      && (!r.cow ==> r.pte.Some? && r.pte.value.write)
      && (r.cow && r.pte.Some? ==> p.owner == Some(k.space.aspace))
      && (p.owner.Some? ==>
            && p.ownerVirt == k.space.addr
            && var o := Key(Space(p.owner.value, p.ownerVirt), k.off);
               o in w.regs && w.regs[o].mem == r.mem && w.regs[o].pte.Some?)
  }

  /** Regions that share memory are at the same place of clones of the same dataspace. */
  ghost predicate SharersAgree(w: World, k: Key, k': Key)
    requires k in w.regs && k' in w.regs
  {
    w.regs[k].mem == w.regs[k'].mem ==>
      && k.off == k'.off && k.space.addr == k'.space.addr
      && w.regs[k].size == w.regs[k'].size && w.regs[k].memoff == w.regs[k'].memoff
      && Writable(w, k.space) == Writable(w, k'.space)
  }

  ghost predicate MemOk(w: World, m: MemId)
    requires m in w.mems
  {
    w.mems[m].gate in w.gates && w.mems[m].refs > 0 && w.mems[m].refs == |Sharers(w, m)|
  }

  /** No two objects name the same memory. */
  ghost predicate GatesDiffer(w: World, m: MemId, m': MemId)
    requires m in w.mems && m' in w.mems
  {
    m != m' ==> w.mems[m].gate != w.mems[m'].gate
  }

  ghost predicate Inv(w: World) {
    && (forall k {:trigger RegionOk(w, k)} :: k in w.regs ==> RegionOk(w, k))
    && (forall k {:trigger WritableOk(w, k)} :: k in w.regs ==> RegionOk(w, k) && WritableOk(w, k))
    && (forall k, k' {:trigger SharersAgree(w, k, k')} :: k in w.regs && k' in w.regs ==> SharersAgree(w, k, k'))
    && (forall m {:trigger MemOk(w, m)} :: m in w.mems ==> MemOk(w, m))
    && (forall m, m' {:trigger GatesDiffer(w, m, m')} :: m in w.mems && m' in w.mems ==> GatesDiffer(w, m, m'))
  }

  // ---------------------------------------------------------------- the simple machine

  /** Every region with its own contents. */
  type Private = map<Key, seq<Page>>

  function Abs(w: World): Private {
    map k | k in w.regs :: Content(w, k)
  }

  datatype Step =
    | SNewSpace(s: Space, write: bool)
    | SRemoveSpace(s: Space)
    | SPopulate(k: Key, memoff: nat, size: nat, pages: seq<Page>, m: MemId, g: GateId)
    | SFault(k: Key, m: MemId, g: GateId)
    | SShare(k: Key, child: AsId)
    | SDrop(k: Key)
    | SStore(k: Key, i: nat, v: Page)

  function Twin(k: Key, child: AsId): Key {
    Key(Space(child, k.space.addr), k.off)
  }

  /** Others still use the memory that this region's address space owns. */
  predicate OwnsShared(w: World, k: Key)
    requires k in w.regs
  {
    var m := w.regs[k].mem;
    m in w.mems && w.mems[m].refs > 1 && w.mems[m].owner == Some(k.space.aspace)
  }

  /**
   What the rest of the pager and the kernel guarantee: new objects have new names; populated regions
   are new and private writable memory starts at its first page; a child region is created only where
   the child has none, in a clone of the same dataspace; the owner of shared memory does not unmap it
   before the others; a process writes only what is mapped writable.
   */
  predicate Enabled(w: World, s: Step) {
    match s
    case SNewSpace(s, _) => s !in w.writable
    case SRemoveSpace(s) => forall k :: k in w.regs ==> k.space != s
    case SPopulate(k, memoff, size, pages, m, g) =>
      && k !in w.regs && k.space in w.writable && m !in w.mems && g !in w.gates
      && memoff + size <= |pages| && (w.writable[k.space] ==> memoff == 0)
    case SFault(k, m, g) => k in w.regs && m !in w.mems && g !in w.gates
    case SShare(k, child) =>
      && k in w.regs && Twin(k, child) !in w.regs
      && (Twin(k, child).space in w.writable ==> Writable(w, Twin(k, child).space) == Writable(w, k.space))
    case SDrop(k) =>
      k in w.regs && !(Writable(w, k.space) && OwnsShared(w, k))
    case SStore(k, i, _) => k in w.regs && w.regs[k].pte.Some? && w.regs[k].pte.value.write && i < w.regs[k].size
  }

  /** The region's memory exists. */
  predicate Backed(w: World, k: Key) {
    k in w.regs && w.regs[k].mem in w.mems && w.mems[w.regs[k].mem].refs > 0
  }

  function Next(w: World, s: Step): World
    requires Enabled(w, s)
  {
    match s
    case SNewSpace(s, write) => w.(writable := w.writable[s := write])
    case SRemoveSpace(s) => w.(writable := w.writable - {s})
    case SPopulate(k, memoff, size, pages, m, g) => Populate(w, k, memoff, size, pages, m, g)
    case SFault(k, m, g) => if Backed(w, k) then Fault(w, k, m, g) else w
    case SShare(k, child) => if Backed(w, k) then Share(w, k, child) else w
    case SDrop(k) => if Backed(w, k) then Drop(w, k) else w
    case SStore(k, i, v) => Store(w, k, i, v)
  }

  /** The same step on the machine without sharing. */
  function Simple(a: Private, s: Step): Private {
    match s
    case SNewSpace(_, _) => a
    case SRemoveSpace(_) => a
    case SPopulate(k, memoff, size, pages, _, _) => a[k := Part(pages, memoff, size)]
    case SFault(_, _, _) => a
    case SShare(k, child) => if k in a then a[Twin(k, child) := a[k]] else a
    case SDrop(k) => a - {k}
    case SStore(k, i, v) => if k in a && i < |a[k]| then a[k := a[k][i := v]] else a
  }
}
