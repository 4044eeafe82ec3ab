/**
 Where copy-on-write depends on the rest of the system: the owner of shared memory has to keep its mapping,
 and writable memory has to start at its first page.  Each of these is needed exactly.
 */
module CowLimits {
  import opened Options
  import opened Cow
  import opened CowProofs
  import opened Fresh

  /** From the world on, nothing that happens to other regions changes the contents of a region. */
  ghost predicate Isolates(w: World) {
    forall steps, w1, steps', w2, x ::
      Run(w, steps, w1) && Run(w1, steps', w2) && x in w1.regs && NotConcerned(steps', x)
      ==> x in w2.regs && Content(w2, x) == Content(w1, x)
  }

  ghost predicate NotConcerned(steps: seq<Step>, x: Key) {
    forall i :: 0 <= i < |steps| ==> !Concerns(steps[i], x)
  }

  lemma InvIsolates(w: World)
    requires Inv(w)
    ensures Isolates(w)
  {
    forall steps, w1, steps', w2, x |
      Run(w, steps, w1) && Run(w1, steps', w2) && x in w1.regs && NotConcerned(steps', x)
      ensures x in w2.regs && Content(w2, x) == Content(w1, x)
    {
      RunRefines(w, steps, w1);
      Isolation(w1, steps', w2, x);
    }
  }

  lemma RunOne(w: World, s: Step)
    requires Enabled(w, s)
    ensures Run(w, [s], Next(w, s))
  {
    assert [s][1..] == [];
  }

  /** An address space that has no dataspace yet and differs from a given one. */
  lemma FreshSpace(w: World, other: AsId) returns (child: AsId)
    ensures child != other && forall s :: s in w.writable ==> s.aspace != child
  {
    var used := set s | s in w.writable :: s.aspace;
    child := FreshNat(used + {other});
    assert other in used + {other};
    forall s | s in w.writable ensures s.aspace != child {
      assert s.aspace in used + {other};
    }
  }

  // ---------------------------------------------------------------- the owner

  /** A copy of memory whose owner has gone is empty. */
  lemma LostCopy(w: World, x: Key, m: MemId, g: GateId)
    requires Backed(w, x) && w.regs[x].cow && Writable(w, x.space) && m !in w.mems && g !in w.gates
    requires w.regs[x].size > 0 && |Content(w, x)| == w.regs[x].size
    requires var p := w.mems[w.regs[x].mem];
             && p.refs > 1 && p.owner.Some? && p.owner != Some(x.space.aspace)
             && Key(Space(p.owner.value, p.ownerVirt), x.off) !in w.regs
    ensures Content(Fault(w, x, m, g), x) != Content(w, x)
  {
  }

  /** The world then isolates nothing anymore. */
  lemma LostIsNotIsolated(w: World, x: Key)
    requires Backed(w, x) && w.regs[x].cow && Writable(w, x.space)
    requires w.regs[x].size > 0 && |Content(w, x)| == w.regs[x].size
    requires var p := w.mems[w.regs[x].mem];
             && p.refs > 1 && p.owner.Some? && p.owner != Some(x.space.aspace)
             && Key(Space(p.owner.value, p.ownerVirt), x.off) !in w.regs
    ensures !Isolates(w)
  {
    var m := FreshNat(w.mems.Keys);
    var g := FreshNat(w.gates.Keys);
    var s := SFault(x, m, g);
    LostCopy(w, x, m, g);
    RunOne(w, s);
    assert Run(w, [], w) && NotConcerned([s], x);
  }

  /** Another user of shared memory. */
  lemma OtherSharer(w: World, k: Key) returns (x: Key)
    requires Inv(w) && k in w.regs && Writable(w, k.space) && OwnsShared(w, k)
    ensures x in w.regs && x != k && w.regs[x].mem == w.regs[k].mem && RegionOk(w, x) && RegionOk(w, k)
    ensures x.off == k.off && x.space.addr == k.space.addr && x.space.aspace != k.space.aspace
    ensures Writable(w, x.space) && w.regs[x].cow && w.regs[x].memoff == 0 && w.regs[x].size == w.regs[k].size
    ensures var p := w.mems[w.regs[k].mem]; p.owner == Some(k.space.aspace) && p.ownerVirt == k.space.addr
  {
    var m := w.regs[k].mem;
    assert RegionOk(w, k) && WritableOk(w, k) && MemOk(w, m);
    assert |Sharers(w, m) - {k}| == |Sharers(w, m)| - 1;
    x :| x in Sharers(w, m) - {k};
    assert SharersAgree(w, k, x) && RegionOk(w, x) && WritableOk(w, x);
  }

  lemma DroppedOwner(w: World, k: Key)
    requires Inv(w) && k in w.regs && Writable(w, k.space) && OwnsShared(w, k) && w.regs[k].size > 0
    ensures Backed(w, k) && !Isolates(Drop(w, k))
  {
    var x := OtherSharer(w, k);
    var w1 := Drop(w, k);
    assert Content(w1, x) == Content(w, x) && |Content(w, x)| == w.regs[x].size;
    if w1.mems[w.regs[k].mem].refs > 1 {
      LostIsNotIsolated(w1, x);
    } else {
      var child := FreshSpace(w1, k.space.aspace);
      forall y | y in w.regs ensures y.space in w.writable {
        assert RegionOk(w, y);
      }
      SharedAgain(w1, x, k, child);
    }
  }

  /** The last user of memory whose owner has gone: a clone of it is already too much. */
  lemma SharedAgain(w: World, x: Key, k: Key, child: AsId)
    requires Backed(w, x) && w.regs[x].cow && Writable(w, x.space) && w.regs[x].size > 0
    requires |Content(w, x)| == w.regs[x].size && k !in w.regs && k.off == x.off && k.space.aspace != x.space.aspace
    requires var p := w.mems[w.regs[x].mem];
             p.refs == 1 && p.owner == Some(k.space.aspace) && p.ownerVirt == k.space.addr
    requires child != k.space.aspace && Twin(x, child) !in w.regs && Twin(x, child).space !in w.writable
    ensures !Isolates(w)
  {
    var s := SShare(x, child);
    var w1 := Next(w, s);
    RunOne(w, s);
    assert x != Twin(x, child) && Content(w1, x) == Content(w, x);
    LostIsNotIsolated(w1, x);
    NotIsolatedBefore(w, s);
  }

  lemma NotIsolatedBefore(w: World, s: Step)
    requires Enabled(w, s) && !Isolates(Next(w, s))
    ensures !Isolates(w)
  {
    var w0 := Next(w, s);
    var steps, w1, steps', w2, x :|
      Run(w0, steps, w1) && Run(w1, steps', w2) && x in w1.regs && NotConcerned(steps', x)
      && !(x in w2.regs && Content(w2, x) == Content(w1, x));
    assert ([s] + steps)[1..] == steps;
    assert Run(w, [s] + steps, w1);
  }

  /**
   Destroying a region leaves all others isolated exactly if it is not the owner of writable memory that others
   still use.
   */
  lemma DropExactly(w: World, k: Key)
    requires Inv(w) && k in w.regs && w.regs[k].size > 0
    ensures Backed(w, k)
    ensures Isolates(Drop(w, k)) <==> !(Writable(w, k.space) && OwnsShared(w, k))
  {
    if Writable(w, k.space) && OwnsShared(w, k) {
      DroppedOwner(w, k);
    } else {
      DropInv(w, k);
      InvIsolates(Drop(w, k));
    }
  }

  /** The owner has its region, it is mapped, and the mapping shows the memory. */
  ghost predicate OwnerSees(w: World, k: Key)
    requires Backed(w, k) && w.mems[w.regs[k].mem].owner.Some?
  {
    var p := w.mems[w.regs[k].mem];
    var o := Key(Space(p.owner.value, p.ownerVirt), k.off);
    o in w.regs && w.regs[o].pte.Some? && w.regs[o].pte.value.gate == p.gate
  }

  /** The same memories with other pages in them. */
  ghost predicate SameShape(a: map<GateId, seq<Page>>, b: map<GateId, seq<Page>>) {
    a.Keys == b.Keys && forall g :: g in a ==> |a[g]| == |b[g]|
  }

  /** A fault on the region keeps its contents, whatever pages the memories hold. */
  ghost predicate CopyKeeps(w: World, k: Key, m: MemId, g: GateId)
    requires Backed(w, k) && m !in w.mems
  {
    forall gates ::
      SameShape(w.gates, gates) ==> Content(Fault(w.(gates := gates), k, m, g), k) == Content(w.(gates := gates), k)
  }

  /** A region that is about to get a copy of memory with another owner. */
  ghost predicate CopiesFromOwner(w: World, k: Key, m: MemId, g: GateId) {
    && Backed(w, k) && Writable(w, k.space) && w.regs[k].cow && m !in w.mems && g !in w.gates
    && var r := w.regs[k]; var p := w.mems[r.mem];
    && p.gate in w.gates && r.memoff == 0 && 0 < r.size <= |w.gates[p.gate]|
    && p.refs > 1 && p.owner.Some? && p.owner != Some(k.space.aspace)
    && var o := Key(Space(p.owner.value, p.ownerVirt), k.off);
       o in w.regs ==> w.regs[o].memoff == 0 && w.regs[o].size == r.size
  }

  lemma CopiedFromOwner(w: World, k: Key, m: MemId, g: GateId)
    requires CopiesFromOwner(w, k, m, g)
    ensures var p := w.mems[w.regs[k].mem];
            Content(Fault(w, k, m, g), k) == Part(Seen(w, Key(Space(p.owner.value, p.ownerVirt), k.off)), 0, w.regs[k].size)
  {
    var p := w.mems[w.regs[k].mem];
    var o := Key(Space(p.owner.value, p.ownerVirt), k.off);
    assert Seen(w.(regs := w.regs[k := w.regs[k].(cow := false)]), o) == Seen(w, o);
  }

  /** The copy is taken through the owner's mapping: it is right exactly if that mapping still shows the memory. */
  lemma CopyNeedsOwner(w: World, k: Key, m: MemId, g: GateId)
    requires CopiesFromOwner(w, k, m, g)
    ensures CopyKeeps(w, k, m, g) <==> OwnerSees(w, k)
  {
    if OwnerSees(w, k) {
      forall gates | SameShape(w.gates, gates)
        ensures Content(Fault(w.(gates := gates), k, m, g), k) == Content(w.(gates := gates), k)
      {
        CopiedFromOwner(w.(gates := gates), k, m, g);
      }
    } else {
      BlindOwner(w, k, m, g);
    }
  }

  lemma BlindOwner(w: World, k: Key, m: MemId, g: GateId)
    requires CopiesFromOwner(w, k, m, g) && !OwnerSees(w, k)
    ensures !CopyKeeps(w, k, m, g)
  {
    var r := w.regs[k];
    var p := w.mems[r.mem];
    var ones := w.gates[p.gate := seq(|w.gates[p.gate]|, _ => 1)];
    var o := Key(Space(p.owner.value, p.ownerVirt), k.off);
    var gates := ones;
    if o in w.regs && w.regs[o].pte.Some? && w.regs[o].pte.value.gate in w.gates {
      var h := w.regs[o].pte.value.gate;
      gates := ones[h := seq(|w.gates[h]|, _ => 0)];
    }
    var w' := w.(gates := gates);
    assert SameShape(w.gates, gates);
    CopiedFromOwner(w', k, m, g);
    assert Content(w', k)[0] == 1;
    assert |Seen(w', o)| > 0 ==> Seen(w', o)[0] == 0;
  }

  // ---------------------------------------------------------------- the offset into the memory

  /**
   `Region::copy` puts the copy at the beginning of the new memory, but leaves the offsets of the regions as they
   are.  Whoever gets the copy (the region itself or, if it is the owner, all others) keeps its contents
   exactly if that offset is 0.
   */
  lemma CopyNeedsOffsetZero(w: World, k: Key, m: MemId, g: GateId, x: Key)
    requires Backed(w, k) && Writable(w, k.space) && w.regs[k].cow && m !in w.mems && g !in w.gates
    requires w.mems[w.regs[k].mem].refs > 1 && CopySource(w, k) == Content(w, k)
    requires w.regs[k].size > 0 && |Content(w, k)| == w.regs[k].size
    requires x in w.regs && w.regs[x].mem == w.regs[k].mem
    requires w.regs[x].memoff == w.regs[k].memoff && w.regs[x].size == w.regs[k].size
    requires x == k <==> w.mems[w.regs[k].mem].owner != Some(k.space.aspace)
    ensures Content(Fault(w, k, m, g), x) == Content(w, x) <==> w.regs[k].memoff == 0
  {
    var c := Content(w, k);
    assert CopySource(w.(regs := w.regs[k := w.regs[k].(cow := false)]), k) == CopySource(w, k);
    assert Part(c, 0, |c|) == c;
    assert Content(Fault(w, k, m, g), x) == Part(c, w.regs[k].memoff, w.regs[k].size);
  }

  /** A writable region with an offset: the first clone that faults has lost its contents. */
  lemma PopulatedWithOffset(w: World, k: Key, memoff: nat, size: nat, pages: seq<Page>, m: MemId, g: GateId)
    requires Inv(w) && k !in w.regs && Writable(w, k.space) && m !in w.mems && g !in w.gates
    requires memoff + size <= |pages| && size > 0 && memoff > 0
    ensures !Isolates(Populate(w, k, memoff, size, pages, m, g))
  {
    var w1 := Populate(w, k, memoff, size, pages, m, g);
    var child := FreshSpace(w1, k.space.aspace);
    var t := Twin(k, child);
    forall y | y in w.regs ensures y.space in w.writable {
      assert RegionOk(w, y);
    }
    var s := SShare(k, child);
    var w2 := Next(w1, s);
    var m2 := FreshNat(w2.mems.Keys);
    var g2 := FreshNat(w2.gates.Keys);
    CopyNeedsOffsetZero(w2, t, m2, g2, t);
    RunOne(w1, s);
    RunOne(w2, SFault(t, m2, g2));
    assert NotConcerned([SFault(t, m2, g2)], t);
  }

  /** Populating a region keeps regions isolated exactly if it is read-only or starts at its first page. */
  lemma PopulateExactly(w: World, k: Key, memoff: nat, size: nat, pages: seq<Page>, m: MemId, g: GateId)
    requires Inv(w) && k !in w.regs && k.space in w.writable && m !in w.mems && g !in w.gates
    requires memoff + size <= |pages| && size > 0
    ensures Isolates(Populate(w, k, memoff, size, pages, m, g)) <==> !Writable(w, k.space) || memoff == 0
  {
    if Writable(w, k.space) && memoff > 0 {
      PopulatedWithOffset(w, k, memoff, size, pages, m, g);
    } else {
      PopulateInv(w, k, memoff, size, pages, m, g);
      InvIsolates(Populate(w, k, memoff, size, pages, m, g));
    }
  }
}
