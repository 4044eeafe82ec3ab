/** The pager object: page faults on regions with memory, inheritance of dataspaces, clones. */
module Pager {
  import opened Options
  import opened Cow
  import Proofs = CowProofs

  /** `copy_block`: copies page by page; outside of the memory there is nothing to copy. */
  method CopyBlock(src: seq<Page>, off: nat, size: nat) returns (dst: seq<Page>)
    ensures dst == Part(src, off, size)
  {
    dst := [];
    if off + size > |src| {
      return;
    }
    var i := 0;
    while i < size
      invariant 0 <= i <= size && dst == src[off..off + i]
    {
      dst := dst + [src[off + i]];
      i := i + 1;
    }
  }

  /** Outside of dataspace `t`, regions and contents are as before. */
  ghost predicate OthersUnchanged(w: World, w': World, t: Space) {
    && (forall k: Key :: k.space != t ==> (k in w.regs <==> k in w'.regs))
    && (forall k :: k in w.regs && k.space != t ==> Content(w', k) == Content(w, k))
    && (forall s: Space :: s != t ==> (s in w.writable <==> s in w'.writable) && Writable(w, s) == Writable(w', s))
  }

  /** Dataspace `t` has exactly the regions `done` of `s`, with the contents they had in `w`. */
  ghost predicate Inherited(w: World, w': World, t: Space, done: set<Key>) {
    && (forall k :: k in w'.regs && k.space == t ==> exists d :: d in done && k == Twin(d, t.aspace))
    && (forall d :: d in done ==> d in w.regs && Twin(d, t.aspace) in w'.regs
                                   && Content(w', Twin(d, t.aspace)) == Content(w, d))
  }

  /** The address space does not own memory that others still use. */
  ghost predicate Clearable(w: World, child: AsId) {
    forall k {:trigger Enabled(w, SDrop(k))} :: k in w.regs && k.space.aspace == child ==> Enabled(w, SDrop(k))
  }

  lemma AbsContent(w: World, k: Key)
    requires k in w.regs
    ensures k in Abs(w) && Abs(w)[k] == Content(w, k)
  {
  }

  lemma DropOne(w: World, k: Key)
    requires Inv(w) && k in w.regs && Clearable(w, k.space.aspace)
    ensures Backed(w, k)
    ensures var w' := Drop(w, k);
            && Inv(w') && Clearable(w', k.space.aspace) && w'.writable == w.writable && w'.regs == w.regs - {k}
            && forall x :: x in w'.regs ==> Content(w', x) == Content(w, x)
  {
    assert Enabled(w, SDrop(k)) && RegionOk(w, k) && MemOk(w, w.regs[k].mem);
    Proofs.StepRefines(w, SDrop(k));
    var w' := Drop(w, k);
    forall x | x in w'.regs ensures Content(w', x) == Content(w, x) {
      AbsContent(w', x);
      AbsContent(w, x);
    }
    forall x | x in w'.regs && x.space.aspace == k.space.aspace ensures Enabled(w', SDrop(x)) {
      assert Enabled(w, SDrop(x));
    }
  }

  lemma ShareOne(w: World, k: Key, child: AsId)
    requires Inv(w) && Enabled(w, SShare(k, child)) && k.space.aspace != child && Clearable(w, child)
    ensures Backed(w, k) && Clearable(Share(w, k, child), child)
    ensures var w', k' := Share(w, k, child), Twin(k, child);
            && Inv(w') && w'.writable == w.writable[k'.space := Writable(w, k.space)]
            && w'.regs.Keys == w.regs.Keys + {k'}
            && Content(w', k') == Content(w, k)
            && forall x :: x in w.regs ==> Content(w', x) == Content(w, x)
  {
    assert RegionOk(w, k) && MemOk(w, w.regs[k].mem);
    Proofs.StepRefines(w, SShare(k, child));
    var w', k' := Share(w, k, child), Twin(k, child);
    AbsContent(w, k);
    AbsContent(w', k');
    forall x | x in w.regs ensures Content(w', x) == Content(w, x) {
      AbsContent(w', x);
      AbsContent(w, x);
    }
    ShareKeepsClearable(w, k, child);
  }

  /** The child does not become the owner of what it shares. */
  lemma ShareKeepsClearable(w: World, k: Key, child: AsId)
    requires Inv(w) && Enabled(w, SShare(k, child)) && k.space.aspace != child && Clearable(w, child) && Backed(w, k)
    ensures Clearable(Share(w, k, child), child)
  {
    var w', k', m := Share(w, k, child), Twin(k, child), w.regs[k].mem;
    assert RegionOk(w, k) && WritableOk(w, k) && MemOk(w, m);
    forall x | x in w'.regs && x.space.aspace == child ensures Enabled(w', SDrop(x)) {
      if x != k' {
        assert RegionOk(w, x) && WritableOk(w, x) && SharersAgree(w, x, k) && Enabled(w, SDrop(x));
      }
    }
  }

  /** `w'` is `w` with one more region in `t`, which has the contents of `k`. */
  ghost predicate OneMore(w: World, w': World, s: Space, t: Space, k: Key) {
    && k.space == s && k in w.regs
    && w'.regs.Keys == w.regs.Keys + {Twin(k, t.aspace)} && w'.writable == w.writable[t := Writable(w, s)]
    && Content(w', Twin(k, t.aspace)) == Content(w, k)
    && forall x :: x in w.regs ==> Content(w', x) == Content(w, x)
  }

  lemma InheritOthers(w0: World, w: World, w': World, s: Space, t: Space, k: Key)
    requires s.addr == t.addr && OneMore(w, w', s, t, k) && OthersUnchanged(w0, w, t)
    ensures OthersUnchanged(w0, w', t)
  {
    forall x: Key | x.space != t ensures x in w.regs <==> x in w'.regs {
      assert x in w'.regs.Keys <==> x in w.regs.Keys + {Twin(k, t.aspace)};
    }
  }

  lemma InheritOne(w0: World, w: World, w': World, s: Space, t: Space, k: Key, done: set<Key>)
    requires s.aspace != t.aspace && s.addr == t.addr && OneMore(w, w', s, t, k)
    requires OthersUnchanged(w0, w, t) && Inherited(w0, w, t, done)
    ensures Inherited(w0, w', t, done + {k})
  {
    forall x | x in w'.regs && x.space == t ensures exists d :: d in done + {k} && x == Twin(d, t.aspace) {
      assert x in w'.regs.Keys;
      if x in w.regs {
        var d :| d in done && x == Twin(d, t.aspace);
        assert d in done + {k};
      } else {
        assert k in done + {k} && x == Twin(k, t.aspace);
      }
    }
  }

  lemma NotYetShared(w0: World, w: World, s: Space, t: Space, k: Key, done: set<Key>)
    requires s.aspace != t.aspace && s.addr == t.addr && k.space == s && k in w0.regs && k !in done
    requires OthersUnchanged(w0, w, t) && Inherited(w0, w, t, done) && forall d :: d in done ==> d.space == s
    ensures k in w.regs && Twin(k, t.aspace) !in w.regs
  {
  }

  function RegionsOf(w: World, s: Space): set<Key> {
    set k | k in w.regs && k.space == s
  }

  /** The loop invariant of `ShareAll`: the regions `done` of `all` are shared. */
  ghost predicate Sharing(w0: World, w: World, s: Space, t: Space, all: set<Key>, done: set<Key>) {
    && Inv(w) && Clearable(w, t.aspace) && s in w.writable && t in w.writable && w.writable[t] == w.writable[s]
    && OthersUnchanged(w0, w, t) && Inherited(w0, w, t, done)
    && done <= all && forall k :: k in all ==> k in w0.regs && k.space == s
  }

  lemma ShareStart(w: World, s: Space, t: Space)
    requires Inv(w) && Clearable(w, t.aspace) && s in w.writable && t in w.writable && w.writable[t] == w.writable[s]
    requires forall k :: k in w.regs ==> k.space != t
    ensures Sharing(w, w, s, t, RegionsOf(w, s), {})
  {
  }

  lemma ShareStep(w0: World, w: World, s: Space, t: Space, k: Key, all: set<Key>, done: set<Key>)
    requires s.aspace != t.aspace && s.addr == t.addr && Sharing(w0, w, s, t, all, done) && k in all - done
    ensures Backed(w, k) && Sharing(w0, Share(w, k, t.aspace), s, t, all, done + {k})
  {
    NotYetShared(w0, w, s, t, k, done);
    ShareOne(w, k, t.aspace);
    InheritOthers(w0, w, Share(w, k, t.aspace), s, t, k);
    InheritOne(w0, w, Share(w, k, t.aspace), s, t, k, done);
  }

  /** Inheriting after the child's regions were removed is inheriting. */
  lemma InheritedSince(w0: World, w1: World, w2: World, s: Space, t: Space)
    requires s != t && OthersUnchanged(w0, w1, t) && OthersUnchanged(w1, w2, t)
    requires Inherited(w1, w2, t, RegionsOf(w1, s))
    ensures OthersUnchanged(w0, w2, t) && Inherited(w0, w2, t, RegionsOf(w0, s))
  {
    assert RegionsOf(w0, s) == RegionsOf(w1, s);
  }

  /** The child's dataspace at address `a` is the one that it inherited from the parent's. */
  ghost predicate SameSpace(ids: map<Space, nat>, parent: AsId, child: AsId, a: nat) {
    Space(child, a) in ids && Space(parent, a) in ids && ids[Space(child, a)] == ids[Space(parent, a)]
  }

  /**
   The child has a dataspace at address `a` with the permissions, regions and contents of the parent's at clone
   time.  A read-only one that it inherited before, and that has regions, keeps them as they are.
   */
  ghost predicate Cloned(w: World, w': World, ids: map<Space, nat>, parent: AsId, child: AsId, a: nat) {
    var s, t := Space(parent, a), Space(child, a);
    && t in w'.writable && Writable(w', t) == Writable(w, s)
    && if Writable(w, s) || !SameSpace(ids, parent, child, a) || forall k :: k in w.regs ==> k.space != t
       then Inherited(w, w', t, RegionsOf(w, s))
       else Kept(w, w', t)
  }

  ghost predicate Kept(w: World, w': World, t: Space) {
    && (forall k: Key :: k.space == t ==> (k in w.regs <==> k in w'.regs))
    && (forall k :: k in w.regs && k.space == t ==> Content(w', k) == Content(w, k))
  }

  /** Nothing has changed, except for the child's dataspaces that are not in `rest`. */
  ghost predicate Untouched(w0: World, w: World, child: AsId, rest: seq<nat>) {
    && (forall k: Key :: k.space.aspace != child || k.space.addr in rest
          ==> (k in w0.regs <==> k in w.regs) && (k in w0.regs ==> Content(w, k) == Content(w0, k)))
    && (forall s: Space :: s.aspace != child || s.addr in rest
          ==> (s in w0.writable <==> s in w.writable) && Writable(w0, s) == Writable(w, s))
  }

  lemma UntouchedRest(w0: World, w: World, w': World, child: AsId, a: nat, rest: seq<nat>)
    requires Untouched(w0, w, child, [a] + rest) && OthersUnchanged(w, w', Space(child, a)) && a !in rest
    ensures Untouched(w0, w', child, rest)
  {
  }

  lemma ClonedStays(w0: World, w: World, w': World, ids: map<Space, nat>, parent: AsId, child: AsId, a: nat, b: nat)
    requires Cloned(w0, w, ids, parent, child, a) && OthersUnchanged(w, w', Space(child, b)) && a != b
    ensures Cloned(w0, w', ids, parent, child, a)
  {
    var regs := RegionsOf(w0, Space(parent, a));
    if Inherited(w0, w, Space(child, a), regs) {
      forall d | d in regs ensures Content(w', Twin(d, child)) == Content(w0, d) && Twin(d, child) in w'.regs {
        assert Twin(d, child).space == Space(child, a);
      }
    }
  }

  lemma ClonedSince(w0: World, w: World, w': World, ids0: map<Space, nat>, ids: map<Space, nat>,
                    parent: AsId, child: AsId, a: nat, rest: seq<nat>)
    requires Untouched(w0, w, child, rest) && a in rest && parent != child && Cloned(w, w', ids, parent, child, a)
    requires SameSpace(ids, parent, child, a) == SameSpace(ids0, parent, child, a)
    ensures Cloned(w0, w', ids0, parent, child, a)
  {
    var s, t := Space(parent, a), Space(child, a);
    assert RegionsOf(w0, s) == RegionsOf(w, s);
    assert Writable(w0, s) == Writable(w, s);
    assert (forall k :: k in w0.regs ==> k.space != t) ==> (forall k :: k in w.regs ==> k.space != t);
  }

  /** The child's dataspaces that are in the list, but not in `rest`, have the identifiers of the parent's; all others theirs. */
  ghost predicate IdsOf(ids0: map<Space, nat>, ids: map<Space, nat>, parent: AsId, child: AsId, list: seq<nat>, rest: seq<nat>) {
    forall s: Space ::
      if s.aspace == child && s.addr in list && s.addr !in rest
      then Space(parent, s.addr) in ids0 && s in ids && ids[s] == ids0[Space(parent, s.addr)]
      else (s in ids <==> s in ids0) && (s in ids0 ==> ids[s] == ids0[s])
  }

  /** The dataspaces of the parent's list that can be cloned. */
  ghost predicate CanClone(w: World, ids: map<Space, nat>, parent: AsId, child: AsId, list: seq<nat>) {
    && (forall a :: a in list ==> Space(parent, a) in w.writable && Space(parent, a) in ids)
    && (forall i, j :: 0 <= i < j < |list| ==> list[i] != list[j])
    && forall a :: a in list && SameSpace(ids, parent, child, a) && Space(child, a) in w.writable
         ==> w.writable[Space(child, a)] == w.writable[Space(parent, a)]
  }

  /** In the middle of a clone: the dataspaces in `rest` are still to come. */
  ghost predicate Cloning(w0: World, w: World, ids0: map<Space, nat>, ids: map<Space, nat>,
                          parent: AsId, child: AsId, list: seq<nat>, rest: seq<nat>) {
    && parent != child && CanClone(w0, ids0, parent, child, list) && Untouched(w0, w, child, rest)
    && (forall i, j :: 0 <= i < j < |rest| ==> rest[i] != rest[j])
    && (forall a :: a in rest ==> a in list)
    && (forall a :: a in list ==> a in rest || Cloned(w0, w, ids0, parent, child, a))
    && IdsOf(ids0, ids, parent, child, list, rest)
  }

  lemma NextToClone(w0: World, w: World, ids0: map<Space, nat>, ids: map<Space, nat>,
                    parent: AsId, child: AsId, list: seq<nat>, rest: seq<nat>)
    requires Cloning(w0, w, ids0, ids, parent, child, list, rest) && rest != []
    ensures var s, t := Space(parent, rest[0]), Space(child, rest[0]);
            && s in w.writable && s in ids && s in ids0 && ids[s] == ids0[s]
            && SameSpace(ids, parent, child, rest[0]) == SameSpace(ids0, parent, child, rest[0])
            && (SameSpace(ids, parent, child, rest[0]) && t in w.writable ==> w.writable[t] == w.writable[s])
  {
    var a := rest[0];
    assert a in list;
    assert Writable(w0, Space(parent, a)) == Writable(w, Space(parent, a));
    assert Writable(w0, Space(child, a)) == Writable(w, Space(child, a));
  }

  lemma CloneStep(w0: World, w: World, w': World, ids0: map<Space, nat>, ids: map<Space, nat>, ids': map<Space, nat>,
                  parent: AsId, child: AsId, list: seq<nat>, rest: seq<nat>)
    requires Cloning(w0, w, ids0, ids, parent, child, list, rest) && rest != []
    requires OthersUnchanged(w, w', Space(child, rest[0])) && Cloned(w, w', ids, parent, child, rest[0])
    requires Space(parent, rest[0]) in ids && ids' == ids[Space(child, rest[0]) := ids[Space(parent, rest[0])]]
    ensures Cloning(w0, w', ids0, ids', parent, child, list, rest[1..])
  {
    var a := rest[0];
    NextToClone(w0, w, ids0, ids, parent, child, list, rest);
    ClonedSince(w0, w, w', ids0, ids, parent, child, a, rest);
    assert rest == [a] + rest[1..];
    UntouchedRest(w0, w, w', child, a, rest[1..]);
    forall b | b in list && b !in rest ensures Cloned(w0, w', ids0, parent, child, b) {
      ClonedStays(w0, w, w', ids0, parent, child, b, a);
    }
    IdsStep(ids0, ids, ids', parent, child, list, rest);
  }

  lemma IdsStep(ids0: map<Space, nat>, ids: map<Space, nat>, ids': map<Space, nat>,
                parent: AsId, child: AsId, list: seq<nat>, rest: seq<nat>)
    requires IdsOf(ids0, ids, parent, child, list, rest) && rest != [] && parent != child && rest[0] in list
    requires forall i, j :: 0 <= i < j < |rest| ==> rest[i] != rest[j]
    requires Space(parent, rest[0]) in ids && ids' == ids[Space(child, rest[0]) := ids[Space(parent, rest[0])]]
    ensures IdsOf(ids0, ids', parent, child, list, rest[1..])
  {
    assert rest == [rest[0]] + rest[1..];
  }

  /** Creating a dataspace without regions, or removing one. */
  lemma SpaceStep(w: World, s: Step)
    requires Inv(w) && Enabled(w, s) && (s.SNewSpace? || s.SRemoveSpace?) && Clearable(w, s.s.aspace)
    ensures var w' := Next(w, s);
            Inv(w') && Clearable(w', s.s.aspace) && OthersUnchanged(w, w', s.s) && w'.regs == w.regs
  {
    var w' := Next(w, s);
    Proofs.SpacesKeep(w, s);
    forall x | x in w'.regs && x.space.aspace == s.s.aspace ensures Enabled(w', SDrop(x)) {
      assert Enabled(w, SDrop(x)) && RegionOk(w, x);
    }
    forall x | x in w.regs ensures Content(w', x) == Content(w, x) {
      Proofs.SpacesRegion(w, s, x);
    }
  }

  class Pager {
    var gates: map<GateId, seq<Page>>
    var mems: map<MemId, PhysMem>
    var regs: map<Key, Region>
    var writable: map<Space, bool>
    var ids: map<Space, nat>

    constructor ()
      ensures State() == Proofs.EMPTY_WORLD && Inv(State()) && ids == map[]
    {
      gates, mems, regs, writable, ids := map[], map[], map[], map[], map[];
      Proofs.EmptyInv();
    }

    function State(): World
      reads this
    {
      World(gates, mems, regs, writable)
    }

    method MapRegion(k: Key, write: bool)
      requires k in regs && regs[k].mem in mems
      modifies this`regs
      ensures State() == Map(old(State()), k, write) && ids == old(ids)
    {
      regs := regs[k := regs[k].(pte := Some(Mapping(mems[regs[k].mem].gate, write)))];
    }

    /** The copy of the pages, either from the owner or from the physical memory. */
    method CopyMemory(k: Key) returns (copy: seq<Page>)
      requires Backed(State(), k)
      ensures copy == CopySource(State(), k)
    {
      var r := regs[k];
      var p := mems[r.mem];
      if p.owner.Some? {
        var seen := Seen(State(), Key(Space(p.owner.value, p.ownerVirt), k.off));
        copy := CopyBlock(seen, 0, |seen|);
        assert seen[0..|seen|] == seen;
      } else {
        copy := CopyBlock(GatePages(State(), p.gate), r.memoff, r.size);
      }
    }

    /** `Region::copy`. */
    method CopyRegion(k: Key, m: MemId, g: GateId)
      requires Backed(State(), k) && m != regs[k].mem
      modifies this
      ensures State() == Copy(old(State()), k, m, g) && ids == old(ids)
    {
      var r, me := regs[k], k.space.aspace;
      var p := mems[r.mem];
      if p.refs == 1 {
        mems := mems[r.mem := p.(owner := Some(me), ownerVirt := k.space.addr)];
        return;
      }
      var copy := CopyMemory(k);
      gates := gates[g := copy];
      if p.owner == Some(me) {
        mems := mems[r.mem := p.(gate := g, owner := None, refs := p.refs - 1)];
        mems := mems[m := PhysMem(p.gate, Some(me), p.ownerVirt, 1)];
      } else {
        mems := mems[r.mem := p.(refs := p.refs - 1)];
        mems := mems[m := PhysMem(g, Some(me), k.space.addr, 1)];
      }
      regs := regs[k := r.(mem := m)];
    }

    /** `handle_pf` for a region that has memory. */
    method HandleFault(k: Key, m: MemId, g: GateId)
      requires Backed(State(), k) && m !in mems
      modifies this
      ensures State() == Fault(old(State()), k, m, g) && ids == old(ids)
    {
      if regs[k].cow {
        regs := regs[k := regs[k].(cow := false)];
        if Writable(State(), k.space) {
          CopyRegion(k, m, g);
        }
      } else if regs[k].pte.Some? {
        return;
      }
      MapRegion(k, Writable(State(), k.space));
    }

    method DropRegion(k: Key)
      requires Backed(State(), k)
      modifies this
      ensures State() == Drop(old(State()), k) && ids == old(ids)
    {
      var m := regs[k].mem;
      regs := regs - {k};
      if mems[m].refs == 1 {
        gates := gates - {mems[m].gate};
        mems := mems - {m};
      } else {
        mems := mems[m := mems[m].(refs := mems[m].refs - 1)];
      }
    }

    /** One iteration of the loop in `DataSpace::inherit`. */
    method ShareRegion(k: Key, child: AsId)
      requires Backed(State(), k) && Twin(k, child) != k
      modifies this
      ensures State() == Share(old(State()), k, child) && ids == old(ids)
    {
      var write := Writable(State(), k.space);
      if !regs[k].cow && write {
        MapRegion(k, false);
      }
      var r := regs[k];
      regs := regs[Twin(k, child) := r.(cow := true, pte := None)];
      mems := mems[r.mem := mems[r.mem].(refs := mems[r.mem].refs + 1)];
      writable := writable[Twin(k, child).space := write];
      if write {
        regs := regs[k := r.(cow := true)];
      }
    }

    /** The first fault in a region: it gets new memory with the given pages. */
    method PopulateRegion(k: Key, memoff: nat, size: nat, pages: seq<Page>, m: MemId, g: GateId)
      modifies this
      ensures State() == Populate(old(State()), k, memoff, size, pages, m, g) && ids == old(ids)
    {
      gates := gates[g := pages];
      mems := mems[m := PhysMem(g, Some(k.space.aspace), k.space.addr, 1)];
      regs := regs[k := Region(m, memoff, size, false, None)];
      MapRegion(k, Writable(State(), k.space));
    }

    /** Whatever may happen keeps the invariant, and looks like a step of the machine without sharing. */
    method Serve(s: Step)
      requires Inv(State()) && Enabled(State(), s)
      modifies this
      ensures Inv(State()) && State() == Next(old(State()), s) && Abs(State()) == Simple(Abs(old(State())), s)
    {
      Proofs.StepRefines(State(), s);
      match s
      case SNewSpace(t, write) => writable := writable[t := write];
      case SRemoveSpace(t) => writable := writable - {t};
      case SPopulate(k, memoff, size, pages, m, g) => PopulateRegion(k, memoff, size, pages, m, g);
      case SFault(k, m, g) => if Backed(State(), k) { HandleFault(k, m, g); }
      case SShare(k, child) => if Backed(State(), k) { ShareRegion(k, child); }
      case SDrop(k) => if Backed(State(), k) { DropRegion(k); }
      case SStore(k, i, v) => gates := Store(State(), k, i, v).gates;
    }

    /** `RegionList::clear` for the regions of one dataspace. */
    method Clear(t: Space)
      requires Inv(State()) && Clearable(State(), t.aspace)
      modifies this
      ensures Inv(State()) && Clearable(State(), t.aspace) && writable == old(writable) && ids == old(ids)
      ensures OthersUnchanged(old(State()), State(), t)
      ensures forall k :: k in regs ==> k.space != t
    {
      var todo := RegionsOf(State(), t);
      while todo != {}
        invariant Inv(State()) && Clearable(State(), t.aspace) && writable == old(writable) && ids == old(ids)
        invariant OthersUnchanged(old(State()), State(), t)
        invariant forall k :: k in todo <==> k in regs && k.space == t
        decreases todo
      {
        var k :| k in todo;
        DropOne(State(), k);
        DropRegion(k);
        todo := todo - {k};
      }
    }

    /** The loop of `DataSpace::inherit`. */
    method ShareAll(s: Space, t: Space)
      requires Inv(State()) && Clearable(State(), t.aspace)
      requires s.aspace != t.aspace && s.addr == t.addr && s in writable
      requires t in writable && writable[t] == writable[s]
      requires forall k :: k in regs ==> k.space != t
      modifies this
      ensures Sharing(old(State()), State(), s, t, RegionsOf(old(State()), s), RegionsOf(old(State()), s)) && ids == old(ids)
    {
      ghost var w0 := State();
      ShareStart(w0, s, t);
      var todo := RegionsOf(State(), s);
      ghost var all := todo;
      assert all - todo == {};
      while todo != {}
        invariant Sharing(w0, State(), s, t, all, all - todo) && todo <= all && ids == old(ids)
        decreases todo
      {
        var k :| k in todo;
        ShareStep(w0, State(), s, t, k, all, all - todo);
        ShareRegion(k, t.aspace);
        assert all - (todo - {k}) == all - todo + {k};
        todo := todo - {k};
      }
      assert all - todo == all;
    }

    /** `DataSpace::inherit`: dataspace `t` becomes a clone of `s`. */
    method Inherit(s: Space, t: Space)
      requires Inv(State()) && Clearable(State(), t.aspace)
      requires s.aspace != t.aspace && s.addr == t.addr && s in writable && s in ids
      requires t in writable && writable[t] == writable[s]
      modifies this
      ensures Inv(State()) && Clearable(State(), t.aspace) && OthersUnchanged(old(State()), State(), t)
      ensures if !old(writable)[s] && (exists k :: k in old(regs) && k.space == t)
              then State() == old(State())
              else Inherited(old(State()), State(), t, RegionsOf(old(State()), s))
      ensures t in writable && writable[t] == old(writable)[t] && ids == old(ids)[t := old(ids)[s]]
    {
      ids := ids[t := ids[s]];
      if !writable[s] && exists k :: k in regs && k.space == t {
        return;
      }
      ghost var w0 := State();
      Clear(t);
      ghost var w1 := State();
      ShareAll(s, t);
      InheritedSince(w0, w1, State(), s, t);
    }

    /** `AddrSpace::remove` and the deletion of the dataspace. */
    method RemoveSpace(t: Space)
      requires Inv(State()) && Clearable(State(), t.aspace)
      modifies this
      ensures Inv(State()) && Clearable(State(), t.aspace) && OthersUnchanged(old(State()), State(), t)
      ensures t !in writable && ids == old(ids) - {t} && forall k :: k in regs ==> k.space != t
    {
      Clear(t);
      ghost var w := State();
      SpaceStep(w, SRemoveSpace(t));
      writable, ids := writable - {t}, ids - {t};
      assert State() == Next(w, SRemoveSpace(t));
    }

    /** The copy of a dataspace, without regions yet. */
    method AddSpace(t: Space, write: bool)
      requires Inv(State()) && Clearable(State(), t.aspace) && t !in writable
      modifies this
      ensures Inv(State()) && Clearable(State(), t.aspace) && OthersUnchanged(old(State()), State(), t)
      ensures regs == old(regs) && writable == old(writable)[t := write] && ids == old(ids)
    {
      ghost var w := State();
      SpaceStep(w, SNewSpace(t, write));
      writable := writable[t := write];
      assert State() == Next(w, SNewSpace(t, write));
    }

    /** The dataspace that will inherit: the child's own one if it has the same identifier, otherwise a new one. */
    method PrepareSpace(s: Space, t: Space)
      requires Inv(State()) && Clearable(State(), t.aspace) && s.aspace != t.aspace
      requires s in writable && s in ids
      requires t in ids && ids[t] == ids[s] && t in writable ==> writable[t] == writable[s]
      modifies this
      ensures Inv(State()) && Clearable(State(), t.aspace) && OthersUnchanged(old(State()), State(), t)
      ensures t in writable && writable[t] == old(writable)[s] && s in ids && ids[s] == old(ids)[s]
      ensures s in writable && writable[s] == old(writable)[s]
      ensures if t in old(ids) && old(ids)[t] == old(ids)[s] && t in old(writable) then State() == old(State())
              else forall k :: k in regs ==> k.space != t
      ensures forall x :: x != t ==> (x in ids <==> x in old(ids)) && (x in ids ==> ids[x] == old(ids)[x])
      ensures forall k :: k in old(regs) && k.space == t ==> t in old(writable)
    {
      forall k | k in regs && k.space == t ensures t in writable {
        assert RegionOk(State(), k);
      }
      if t in writable && !(t in ids && ids[t] == ids[s]) {
        RemoveSpace(t);
      }
      if t !in writable {
        forall k | k in regs ensures k.space != t {
          assert RegionOk(State(), k);
        }
        AddSpace(t, writable[s]);
      }
    }

    /** One iteration of `AddrSpace::clone`. */
    method CloneSpace(parent: AsId, child: AsId, a: nat)
      requires Inv(State()) && Clearable(State(), child) && parent != child
      requires Space(parent, a) in writable && Space(parent, a) in ids
      requires SameSpace(ids, parent, child, a) && Space(child, a) in writable ==>
                 writable[Space(child, a)] == writable[Space(parent, a)]
      modifies this
      ensures Inv(State()) && Clearable(State(), child) && OthersUnchanged(old(State()), State(), Space(child, a))
      ensures Cloned(old(State()), State(), old(ids), parent, child, a)
      ensures ids == old(ids)[Space(child, a) := old(ids)[Space(parent, a)]]
    {
      var s, t := Space(parent, a), Space(child, a);
      ghost var w0 := State();
      PrepareSpace(s, t);
      ghost var w1 := State();
      Inherit(s, t);
      if Inherited(w1, State(), t, RegionsOf(w1, s)) {
        InheritedSince(w0, w1, State(), s, t);
      }
    }

    /**
     `AddrSpace::clone`: the child gets a clone of every dataspace in the parent's list.  A dataspace of the child
     with the same identifier is kept and inherits again, another one at the same address is removed.
     */
    method Clone(parent: AsId, child: AsId, list: seq<nat>)
      requires Inv(State()) && Clearable(State(), child) && parent != child
      requires CanClone(State(), ids, parent, child, list)
      modifies this
      ensures Inv(State())
      ensures Untouched(old(State()), State(), child, [])
      ensures forall a :: a in list ==> Cloned(old(State()), State(), old(ids), parent, child, a)
      ensures IdsOf(old(ids), ids, parent, child, list, [])
    {
      ghost var w0, ids0 := State(), ids;
      var rest := list;
      while rest != []
        invariant Inv(State()) && Clearable(State(), child)
        invariant Cloning(w0, State(), ids0, ids, parent, child, list, rest)
        decreases |rest|
      {
        ghost var w, ids1 := State(), ids;
        NextToClone(w0, w, ids0, ids, parent, child, list, rest);
        CloneSpace(parent, child, rest[0]);
        CloneStep(w0, w, State(), ids0, ids1, ids, parent, child, list, rest);
        rest := rest[1..];
      }
    }
  }
}
