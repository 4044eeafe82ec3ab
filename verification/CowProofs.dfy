/** Copy-on-write refines private memory. */
module CowProofs {
  import opened Options
  import opened Cow

  // ---------------------------------------------------------------- reference counts

  lemma SharersAdd(w: World, w': World, m: MemId, k: Key)
    requires k !in Sharers(w, m) && Sharers(w', m) == Sharers(w, m) + {k}
    ensures |Sharers(w', m)| == |Sharers(w, m)| + 1
  {
  }

  lemma SharersRemove(w: World, w': World, m: MemId, k: Key)
    requires k in Sharers(w, m) && Sharers(w', m) == Sharers(w, m) - {k}
    ensures |Sharers(w', m)| == |Sharers(w, m)| - 1
  {
  }

  /** The last reference. */
  lemma LastSharer(w: World, k: Key, k': Key)
    requires Inv(w) && k in w.regs && k' in w.regs && w.regs[k].mem == w.regs[k'].mem
    requires w.regs[k].mem in w.mems && w.mems[w.regs[k].mem].refs == 1
    ensures k == k'
  {
    var s := Sharers(w, w.regs[k].mem);
    assert k in s && k' in s;
    assert RegionOk(w, k) && MemOk(w, w.regs[k].mem);
    if k != k' {
      assert {k, k'} <= s;
      assert |{k, k'}| == 2;
      SubsetSize({k, k'}, s);
    }
  }

  lemma {:induction false} SubsetSize(a: set<Key>, b: set<Key>)
    requires a <= b
    ensures |a| <= |b|
    decreases a
  {
    if a != {} {
      var k :| k in a;
      SubsetSize(a - {k}, b - {k});
    }
  }

  /** A mapped region sees its contents. */
  lemma SeenIsContent(w: World, k: Key)
    requires Inv(w) && k in w.regs && w.regs[k].pte.Some?
    ensures Seen(w, k) == Content(w, k)
  {
    assert RegionOk(w, k);
  }

  // ---------------------------------------------------------------- writing

  /** The memory behind a writable mapping has no other user. */
  lemma StoreIsPrivate(w: World, k: Key, i: nat, v: Page, x: Key)
    requires Inv(w) && Enabled(w, SStore(k, i, v)) && x in w.regs && x != k
    ensures Content(Store(w, k, i, v), x) == Content(w, x)
  {
    assert RegionOk(w, k) && WritableOk(w, k) && RegionOk(w, x);
    assert GatesDiffer(w, w.regs[k].mem, w.regs[x].mem);
    if w.regs[x].mem == w.regs[k].mem {
      LastSharer(w, k, x);
    }
  }

  lemma StoreInv(w: World, k: Key, i: nat, v: Page)
    requires Inv(w) && Enabled(w, SStore(k, i, v))
    ensures Inv(Store(w, k, i, v))
  {
    var w' := Store(w, k, i, v);
    assert RegionOk(w, k);
    forall x | x in w'.regs ensures RegionOk(w', x) && WritableOk(w', x) {
      assert RegionOk(w, x) && WritableOk(w, x);
    }
    forall x, y | x in w'.regs && y in w'.regs ensures SharersAgree(w', x, y) {
      assert SharersAgree(w, x, y);
    }
    forall m | m in w'.mems ensures MemOk(w', m) {
      assert MemOk(w, m) && Sharers(w', m) == Sharers(w, m);
    }
    forall m, m' | m in w'.mems && m' in w'.mems ensures GatesDiffer(w', m, m') {
      assert GatesDiffer(w, m, m');
    }
  }

  lemma StoreAbs(w: World, k: Key, i: nat, v: Page)
    requires Inv(w) && Enabled(w, SStore(k, i, v))
    ensures Abs(Store(w, k, i, v)) == Simple(Abs(w), SStore(k, i, v))
  {
    var w' := Store(w, k, i, v);
    assert RegionOk(w, k);
    assert Content(w', k) == Content(w, k)[i := v];
    forall x | x in w.regs && x != k ensures Content(w', x) == Content(w, x) {
      StoreIsPrivate(w, k, i, v, x);
    }
  }

  // ---------------------------------------------------------------- the first fault

  lemma PopulateInv(w: World, k: Key, memoff: nat, size: nat, pages: seq<Page>, m: MemId, g: GateId)
    requires Inv(w) && Enabled(w, SPopulate(k, memoff, size, pages, m, g))
    ensures Inv(Populate(w, k, memoff, size, pages, m, g))
  {
    var w' := Populate(w, k, memoff, size, pages, m, g);
    forall x | x in w'.regs ensures RegionOk(w', x) && WritableOk(w', x) {
      if x != k {
        assert RegionOk(w, x) && WritableOk(w, x);
      }
    }
    forall x, y | x in w'.regs && y in w'.regs ensures SharersAgree(w', x, y) {
      if x != k && y != k {
        assert SharersAgree(w, x, y);
      } else if x != k {
        assert RegionOk(w, x);
      } else if y != k {
        assert RegionOk(w, y);
      }
    }
    forall n | n in w'.mems ensures MemOk(w', n) {
      if n == m {
        NoSharers(w, m);
        assert Sharers(w', m) == {k};
      } else {
        assert MemOk(w, n) && Sharers(w', n) == Sharers(w, n);
      }
    }
    forall n, n' | n in w'.mems && n' in w'.mems ensures GatesDiffer(w', n, n') {
      if n != m && n' != m {
        assert GatesDiffer(w, n, n');
      } else if n != m {
        assert MemOk(w, n);
      } else if n' != m {
        assert MemOk(w, n');
      }
    }
  }

  lemma NoSharers(w: World, m: MemId)
    requires Inv(w) && m !in w.mems
    ensures Sharers(w, m) == {}
  {
    forall k | k in w.regs ensures w.regs[k].mem != m {
      assert RegionOk(w, k);
    }
  }

  lemma PopulateAbs(w: World, k: Key, memoff: nat, size: nat, pages: seq<Page>, m: MemId, g: GateId)
    requires Inv(w) && Enabled(w, SPopulate(k, memoff, size, pages, m, g))
    ensures Abs(Populate(w, k, memoff, size, pages, m, g)) == Simple(Abs(w), SPopulate(k, memoff, size, pages, m, g))
  {
    var w' := Populate(w, k, memoff, size, pages, m, g);
    assert Content(w', k) == Part(pages, memoff, size);
    forall x | x in w.regs ensures Content(w', x) == Content(w, x) {
      assert RegionOk(w, x);
    }
  }

  // ---------------------------------------------------------------- clone

  lemma ShareRegionOk(w: World, k: Key, child: AsId, x: Key)
    requires Inv(w) && Enabled(w, SShare(k, child)) && RegionOk(w, k) && x in Share(w, k, child).regs
    ensures RegionOk(Share(w, k, child), x)
  {
    if x in w.regs {
      assert RegionOk(w, x);
    }
  }

  lemma ShareWritableOk(w: World, k: Key, child: AsId, x: Key)
    requires Inv(w) && Enabled(w, SShare(k, child)) && RegionOk(w, k) && x in Share(w, k, child).regs
    ensures RegionOk(Share(w, k, child), x) && WritableOk(Share(w, k, child), x)
  {
    ShareRegionOk(w, k, child, x);
    var x0 := if x == Twin(k, child) then k else x;
    assert RegionOk(w, x0) && WritableOk(w, x0) && WritableOk(w, k) && SharersAgree(w, x0, k);
    if x0 != k && w.regs[x0].mem == w.regs[k].mem && !w.regs[x0].cow && Writable(w, x0.space) {
      LastSharer(w, x0, k);
    }
  }

  lemma ShareAgrees(w: World, k: Key, child: AsId, x: Key, y: Key)
    requires Inv(w) && Enabled(w, SShare(k, child)) && RegionOk(w, k)
    requires x in Share(w, k, child).regs && y in Share(w, k, child).regs
    ensures SharersAgree(Share(w, k, child), x, y)
  {
    var k' := Twin(k, child);
    var x0, y0 := if x == k' then k else x, if y == k' then k else y;
    assert RegionOk(w, x0) && RegionOk(w, y0) && SharersAgree(w, x0, y0);
  }

  lemma ShareInv(w: World, k: Key, child: AsId)
    requires Inv(w) && Enabled(w, SShare(k, child))
    ensures RegionOk(w, k) && Inv(Share(w, k, child))
  {
    assert RegionOk(w, k) && MemOk(w, w.regs[k].mem);
    var w', k', m := Share(w, k, child), Twin(k, child), w.regs[k].mem;
    forall x | x in w'.regs ensures RegionOk(w', x) && WritableOk(w', x) {
      ShareWritableOk(w, k, child, x);
    }
    forall x, y | x in w'.regs && y in w'.regs ensures SharersAgree(w', x, y) {
      ShareAgrees(w, k, child, x, y);
    }
    forall n | n in w'.mems ensures MemOk(w', n) {
      assert MemOk(w, n);
      if n == m {
        assert Sharers(w', m) == Sharers(w, m) + {k'};
        SharersAdd(w, w', m, k');
      } else {
        assert Sharers(w', n) == Sharers(w, n);
      }
    }
    forall n, n' | n in w'.mems && n' in w'.mems ensures GatesDiffer(w', n, n') {
      assert GatesDiffer(w, n, n');
    }
  }

  lemma ShareContent(w: World, k: Key, child: AsId, x: Key)
    requires Enabled(w, SShare(k, child)) && RegionOk(w, k) && x in Share(w, k, child).regs
    ensures Content(Share(w, k, child), x) == Content(w, if x == Twin(k, child) then k else x)
  {
  }

  lemma ShareAbs(w: World, k: Key, child: AsId)
    requires Inv(w) && Enabled(w, SShare(k, child))
    ensures RegionOk(w, k) && Abs(Share(w, k, child)) == Simple(Abs(w), SShare(k, child))
  {
    assert RegionOk(w, k);
    var w' := Share(w, k, child);
    var a := Abs(w)[Twin(k, child) := Content(w, k)];
    assert Abs(w').Keys == a.Keys;
    forall x | x in a ensures Abs(w')[x] == a[x] {
      ShareContent(w, k, child, x);
    }
  }

  // ---------------------------------------------------------------- dropping a region

  lemma DropInv(w: World, k: Key)
    requires Inv(w) && Enabled(w, SDrop(k))
    ensures RegionOk(w, k) && MemOk(w, w.regs[k].mem) && Inv(Drop(w, k))
  {
    assert RegionOk(w, k) && MemOk(w, w.regs[k].mem);
    var w', m := Drop(w, k), w.regs[k].mem;
    forall x | x in w'.regs ensures RegionOk(w', x) && WritableOk(w', x) {
      assert RegionOk(w, x) && WritableOk(w, x) && SharersAgree(w, x, k) && GatesDiffer(w, m, w.regs[x].mem);
      if w.mems[m].refs == 1 && w.regs[x].mem == m {
        LastSharer(w, k, x);
      }
    }
    forall x, y | x in w'.regs && y in w'.regs ensures SharersAgree(w', x, y) {
      assert SharersAgree(w, x, y);
    }
    forall n | n in w'.mems ensures MemOk(w', n) {
      assert MemOk(w, n) && GatesDiffer(w, m, n);
      if n == m {
        assert Sharers(w', m) == Sharers(w, m) - {k};
        SharersRemove(w, w', m, k);
      } else {
        assert Sharers(w', n) == Sharers(w, n);
      }
    }
    forall n, n' | n in w'.mems && n' in w'.mems ensures GatesDiffer(w', n, n') {
      assert GatesDiffer(w, n, n');
    }
  }

  lemma DropAbs(w: World, k: Key)
    requires Inv(w) && Enabled(w, SDrop(k))
    ensures RegionOk(w, k) && MemOk(w, w.regs[k].mem) && Abs(Drop(w, k)) == Simple(Abs(w), SDrop(k))
  {
    assert RegionOk(w, k) && MemOk(w, w.regs[k].mem);
    var w', m := Drop(w, k), w.regs[k].mem;
    forall x | x in w'.regs ensures Content(w', x) == Content(w, x) {
      assert RegionOk(w, x) && GatesDiffer(w, m, w.regs[x].mem);
      if w.mems[m].refs == 1 && w.regs[x].mem == m {
        LastSharer(w, k, x);
      }
    }
  }

  // ---------------------------------------------------------------- the copy-on-write fault

  /** The pages for the copy are the contents of the region, whether they come from the owner or from the memory. */
  lemma CopySourceIsContent(w: World, k: Key)
    requires Inv(w) && k in w.regs && w.regs[k].cow && Writable(w, k.space)
    ensures RegionOk(w, k)
    ensures CopySource(w.(regs := w.regs[k := w.regs[k].(cow := false)]), k) == Content(w, k)
  {
    assert RegionOk(w, k) && WritableOk(w, k);
    var p := w.mems[w.regs[k].mem];
    if p.owner.Some? {
      var o := Key(Space(p.owner.value, p.ownerVirt), k.off);
      assert RegionOk(w, o) && SharersAgree(w, o, k);
    }
  }

  /** The world after the fault on a writable copy-on-write region, in the three cases of `Region::copy`. */
  lemma FaultCases(w: World, k: Key, m: MemId, g: GateId)
    requires Inv(w) && Enabled(w, SFault(k, m, g)) && w.regs[k].cow && Writable(w, k.space)
    ensures RegionOk(w, k) && MemOk(w, w.regs[k].mem)
    ensures var r := w.regs[k]; var p := w.mems[r.mem]; var me := k.space.aspace; var w' := Fault(w, k, m, g);
      if p.refs == 1 then
        && w'.gates == w.gates
        && w'.mems == w.mems[r.mem := p.(owner := Some(me), ownerVirt := k.space.addr)]
        && w'.regs == w.regs[k := r.(cow := false, pte := Some(Mapping(p.gate, true)))]
      else if p.owner == Some(me) then
        && w'.gates == w.gates[g := Content(w, k)]
        && w'.mems == w.mems[r.mem := p.(gate := g, owner := None, refs := p.refs - 1)]
                            [m := PhysMem(p.gate, Some(me), p.ownerVirt, 1)]
        && w'.regs == w.regs[k := r.(cow := false, mem := m, pte := Some(Mapping(p.gate, true)))]
      else
        && w'.gates == w.gates[g := Content(w, k)]
        && w'.mems == w.mems[r.mem := p.(refs := p.refs - 1)][m := PhysMem(g, Some(me), k.space.addr, 1)]
        && w'.regs == w.regs[k := r.(cow := false, mem := m, pte := Some(Mapping(g, true)))]
    ensures Fault(w, k, m, g).writable == w.writable
  {
    assert RegionOk(w, k) && MemOk(w, w.regs[k].mem);
    CopySourceIsContent(w, k);
  }

  /** Nobody else has mapped the memory that the owner takes along. */
  lemma OnlyOwnerMapped(w: World, k: Key, x: Key)
    requires Inv(w) && k in w.regs && x in w.regs && w.regs[x].mem == w.regs[k].mem && x != k
    requires Writable(w, k.space) && w.regs[k].mem in w.mems
    requires w.mems[w.regs[k].mem].refs > 1
    requires w.mems[w.regs[k].mem].owner.Some? ==> w.mems[w.regs[k].mem].owner == Some(k.space.aspace)
    ensures w.regs[x].cow && w.regs[x].pte.None?
  {
    assert RegionOk(w, x) && WritableOk(w, x) && SharersAgree(w, x, k);
  }

  ghost predicate CowFault(w: World, k: Key, m: MemId, g: GateId) {
    Inv(w) && Enabled(w, SFault(k, m, g)) && w.regs[k].cow && Writable(w, k.space) && RegionOk(w, k) && MemOk(w, w.regs[k].mem)
  }

  lemma FaultRegionOk(w: World, k: Key, m: MemId, g: GateId, x: Key)
    requires CowFault(w, k, m, g) && x in Fault(w, k, m, g).regs
    ensures RegionOk(Fault(w, k, m, g), x)
  {
    FaultCases(w, k, m, g);
    assert RegionOk(w, x) && WritableOk(w, k) && SharersAgree(w, x, k);
    var p := w.mems[w.regs[k].mem];
    if x != k && w.regs[x].mem == w.regs[k].mem && p.refs > 1 && p.owner == Some(k.space.aspace) {
      OnlyOwnerMapped(w, k, x);
    }
  }

  lemma FaultWritableOk(w: World, k: Key, m: MemId, g: GateId, x: Key)
    requires CowFault(w, k, m, g) && x in Fault(w, k, m, g).regs
    ensures RegionOk(Fault(w, k, m, g), x) && WritableOk(Fault(w, k, m, g), x)
  {
    FaultCases(w, k, m, g);
    FaultRegionOk(w, k, m, g, x);
    assert RegionOk(w, x) && WritableOk(w, x) && WritableOk(w, k) && SharersAgree(w, x, k);
    var p := w.mems[w.regs[k].mem];
    if x != k && w.regs[x].mem == w.regs[k].mem {
      if p.refs == 1 {
        LastSharer(w, k, x);
      } else if p.owner == Some(k.space.aspace) {
        OnlyOwnerMapped(w, k, x);
      }
    }
  }

  lemma FaultAgrees(w: World, k: Key, m: MemId, g: GateId, x: Key, y: Key)
    requires CowFault(w, k, m, g) && x in Fault(w, k, m, g).regs && y in Fault(w, k, m, g).regs
    ensures SharersAgree(Fault(w, k, m, g), x, y)
  {
    FaultCases(w, k, m, g);
    assert RegionOk(w, x) && RegionOk(w, y) && SharersAgree(w, x, y);
  }

  lemma FaultMemOk(w: World, k: Key, m: MemId, g: GateId, n: MemId)
    requires CowFault(w, k, m, g) && n in Fault(w, k, m, g).mems
    ensures MemOk(Fault(w, k, m, g), n)
  {
    FaultCases(w, k, m, g);
    var w', shared := Fault(w, k, m, g), w.regs[k].mem;
    if n == m {
      NoSharers(w, m);
      assert Sharers(w', m) == {k};
    } else if n == shared && w.mems[shared].refs > 1 {
      assert Sharers(w', shared) == Sharers(w, shared) - {k};
      SharersRemove(w, w', shared, k);
    } else {
      assert MemOk(w, n) && Sharers(w', n) == Sharers(w, n);
    }
  }

  lemma FaultGatesDiffer(w: World, k: Key, m: MemId, g: GateId, n: MemId, n': MemId)
    requires CowFault(w, k, m, g) && n in Fault(w, k, m, g).mems && n' in Fault(w, k, m, g).mems
    ensures GatesDiffer(Fault(w, k, m, g), n, n')
  {
    FaultCases(w, k, m, g);
    var shared := w.regs[k].mem;
    var n0, n0' := if n == m then shared else n, if n' == m then shared else n';
    assert MemOk(w, n0) && MemOk(w, n0') && GatesDiffer(w, n0, n0');
  }

  lemma CowFaultInv(w: World, k: Key, m: MemId, g: GateId)
    requires CowFault(w, k, m, g)
    ensures Inv(Fault(w, k, m, g))
  {
    var w' := Fault(w, k, m, g);
    forall x | x in w'.regs ensures RegionOk(w', x) && WritableOk(w', x) {
      FaultWritableOk(w, k, m, g, x);
    }
    forall x, y | x in w'.regs && y in w'.regs ensures SharersAgree(w', x, y) {
      FaultAgrees(w, k, m, g, x, y);
    }
    forall n | n in w'.mems ensures MemOk(w', n) {
      FaultMemOk(w, k, m, g, n);
    }
    forall n, n' | n in w'.mems && n' in w'.mems ensures GatesDiffer(w', n, n') {
      FaultGatesDiffer(w, k, m, g, n, n');
    }
  }

  /** Whoever gets the copy, everybody still has the contents from before. */
  lemma CowFaultContent(w: World, k: Key, m: MemId, g: GateId, x: Key)
    requires CowFault(w, k, m, g) && x in w.regs
    ensures Content(Fault(w, k, m, g), x) == Content(w, x)
  {
    FaultCases(w, k, m, g);
    assert RegionOk(w, x) && WritableOk(w, k) && SharersAgree(w, x, k);
    assert GatesDiffer(w, w.regs[k].mem, w.regs[x].mem);
    var c := Content(w, k);
    assert Part(c, 0, |c|) == c;
  }

  lemma PlainFaultInv(w: World, k: Key, m: MemId, g: GateId)
    requires Inv(w) && Enabled(w, SFault(k, m, g)) && RegionOk(w, k) && MemOk(w, w.regs[k].mem)
    requires !(w.regs[k].cow && Writable(w, k.space))
    ensures Inv(Fault(w, k, m, g))
  {
    var w' := Fault(w, k, m, g);
    forall x | x in w'.regs ensures RegionOk(w', x) && WritableOk(w', x) {
      assert RegionOk(w, x) && WritableOk(w, x);
    }
    forall x, y | x in w'.regs && y in w'.regs ensures SharersAgree(w', x, y) {
      assert SharersAgree(w, x, y);
    }
    forall n | n in w'.mems ensures MemOk(w', n) {
      assert MemOk(w, n) && Sharers(w', n) == Sharers(w, n);
    }
    forall n, n' | n in w'.mems && n' in w'.mems ensures GatesDiffer(w', n, n') {
      assert GatesDiffer(w, n, n');
    }
  }

  lemma FaultKeeps(w: World, k: Key, m: MemId, g: GateId)
    requires Inv(w) && Enabled(w, SFault(k, m, g))
    ensures RegionOk(w, k) && MemOk(w, w.regs[k].mem)
    ensures Inv(Fault(w, k, m, g)) && Abs(Fault(w, k, m, g)) == Abs(w)
    ensures Fault(w, k, m, g).regs[k].pte.Some? && !Fault(w, k, m, g).regs[k].cow
  {
    assert RegionOk(w, k) && MemOk(w, w.regs[k].mem);
    var w' := Fault(w, k, m, g);
    if w.regs[k].cow && Writable(w, k.space) {
      CowFaultInv(w, k, m, g);
      FaultCases(w, k, m, g);
      forall x | x in w.regs ensures Content(w', x) == Content(w, x) {
        CowFaultContent(w, k, m, g, x);
      }
    } else {
      PlainFaultInv(w, k, m, g);
      forall x | x in w.regs ensures Content(w', x) == Content(w, x) {
        assert RegionOk(w, x);
      }
    }
    assert w'.regs.Keys == w.regs.Keys;
  }

  // ---------------------------------------------------------------- what a fault is good for

  /** The process can read the region, and write it if the dataspace is writable. */
  ghost predicate Accessible(w: World, k: Key) {
    && k in w.regs && w.regs[k].pte.Some? && Seen(w, k) == Content(w, k)
    && k.space in w.writable
    && forall i: nat, v: Page :: i < w.regs[k].size ==> (Enabled(w, SStore(k, i, v)) <==> w.writable[k.space])
  }

  lemma MappedIsAccessible(w: World, k: Key)
    requires Inv(w) && k in w.regs && w.regs[k].pte.Some? && !w.regs[k].cow
    ensures Accessible(w, k)
  {
    assert RegionOk(w, k) && WritableOk(w, k);
  }

  /** After the first fault, the process can access the pages: it sees what was loaded, and can write exactly if it may. */
  lemma PopulateGivesAccess(w: World, k: Key, memoff: nat, size: nat, pages: seq<Page>, m: MemId, g: GateId)
    requires Inv(w) && Enabled(w, SPopulate(k, memoff, size, pages, m, g))
    ensures var w' := Next(w, SPopulate(k, memoff, size, pages, m, g));
            Accessible(w', k) && Seen(w', k) == pages[memoff..memoff + size]
  {
    PopulateInv(w, k, memoff, size, pages, m, g);
    MappedIsAccessible(Populate(w, k, memoff, size, pages, m, g), k);
  }

  /** So it can after every other fault, and sees what the region contained before. */
  lemma FaultGivesAccess(w: World, k: Key, m: MemId, g: GateId)
    requires Inv(w) && Enabled(w, SFault(k, m, g))
    ensures var w' := Next(w, SFault(k, m, g)); Accessible(w', k) && Seen(w', k) == Content(w, k)
  {
    FaultKeeps(w, k, m, g);
    var w' := Fault(w, k, m, g);
    assert Abs(w')[k] == Content(w', k) && Abs(w)[k] == Content(w, k);
    MappedIsAccessible(w', k);
  }

  // ---------------------------------------------------------------- memory is given back

  /** All physical memory belongs to an object, and with the invariant every object has a user. */
  ghost predicate NothingLeaks(w: World) {
    forall g :: g in w.gates ==> exists m :: m in w.mems && w.mems[m].gate == g
  }

  /** The object of a gate, before and after a step that keeps it. */
  lemma StillOwned(w: World, w': World, g: GateId, m: MemId)
    requires m in w'.mems && w'.mems[m].gate == g
    ensures exists n :: n in w'.mems && w'.mems[n].gate == g
  {
  }

  lemma FaultLeaksNothing(w: World, k: Key, m: MemId, g: GateId)
    requires Inv(w) && NothingLeaks(w) && Enabled(w, SFault(k, m, g))
    ensures NothingLeaks(Next(w, SFault(k, m, g)))
  {
    assert RegionOk(w, k) && MemOk(w, w.regs[k].mem);
    var w', shared := Fault(w, k, m, g), w.regs[k].mem;
    if w.regs[k].cow && Writable(w, k.space) {
      FaultCases(w, k, m, g);
      forall x | x in w'.gates ensures exists n :: n in w'.mems && w'.mems[n].gate == x {
        if x == g {
          StillOwned(w, w', x, if w'.mems[shared].gate == g then shared else m);
        } else {
          var n :| n in w.mems && w.mems[n].gate == x;
          StillOwned(w, w', x, if n in w'.mems && w'.mems[n].gate == x then n else m);
        }
      }
    } else {
      assert w'.gates == w.gates && w'.mems == w.mems;
    }
  }

  lemma DropLeaksNothing(w: World, k: Key)
    requires Inv(w) && NothingLeaks(w) && Enabled(w, SDrop(k))
    ensures NothingLeaks(Next(w, SDrop(k)))
  {
    assert RegionOk(w, k) && MemOk(w, w.regs[k].mem);
    var w' := Drop(w, k);
    forall x | x in w'.gates ensures exists n :: n in w'.mems && w'.mems[n].gate == x {
      var n :| n in w.mems && w.mems[n].gate == x;
      StillOwned(w, w', x, n);
    }
  }

  lemma StepLeaksNothing(w: World, s: Step)
    requires Inv(w) && NothingLeaks(w) && Enabled(w, s)
    ensures NothingLeaks(Next(w, s))
  {
    var w' := Next(w, s);
    match s
    case SFault(k, m, g) => FaultLeaksNothing(w, k, m, g);
    case SDrop(k) => DropLeaksNothing(w, k);
    case SPopulate(_, _, _, _, m, g) =>
      forall x | x in w'.gates ensures exists n :: n in w'.mems && w'.mems[n].gate == x {
        if x != g {
          var n :| n in w.mems && w.mems[n].gate == x;
          StillOwned(w, w', x, n);
        } else {
          StillOwned(w, w', x, m);
        }
      }
    case SShare(k, _) =>
      assert RegionOk(w, k) && MemOk(w, w.regs[k].mem);
      forall x | x in w'.gates ensures exists n :: n in w'.mems && w'.mems[n].gate == x {
        var n :| n in w.mems && w.mems[n].gate == x;
        StillOwned(w, w', x, n);
      }
    case SStore(k, _, _) =>
      assert RegionOk(w, k);
      assert w'.gates.Keys == w.gates.Keys;
    case _ =>
  }

  // ---------------------------------------------------------------- every step, every run

  lemma SpacesRegion(w: World, s: Step, x: Key)
    requires Inv(w) && Enabled(w, s) && (s.SNewSpace? || s.SRemoveSpace?) && x in w.regs
    ensures RegionOk(Next(w, s), x) && WritableOk(Next(w, s), x) && Content(Next(w, s), x) == Content(w, x)
    ensures Writable(Next(w, s), x.space) == Writable(w, x.space)
  {
    assert RegionOk(w, x) && WritableOk(w, x);
  }

  /** Memories and their users do not depend on the dataspaces' permissions. */
  lemma SpacesMems(w: World, w': World)
    requires Inv(w) && w'.regs == w.regs && w'.mems == w.mems && w'.gates == w.gates
    ensures forall n {:trigger MemOk(w', n)} :: n in w'.mems ==> MemOk(w', n)
    ensures forall n, n' {:trigger GatesDiffer(w', n, n')} :: n in w'.mems && n' in w'.mems ==> GatesDiffer(w', n, n')
  {
    forall n | n in w'.mems ensures MemOk(w', n) {
      assert MemOk(w, n) && Sharers(w', n) == Sharers(w, n);
    }
    forall n, n' | n in w'.mems && n' in w'.mems ensures GatesDiffer(w', n, n') {
      assert GatesDiffer(w, n, n');
    }
  }

  lemma SpacesKeep(w: World, s: Step)
    requires Inv(w) && Enabled(w, s) && (s.SNewSpace? || s.SRemoveSpace?)
    ensures Inv(Next(w, s)) && Abs(Next(w, s)) == Abs(w)
  {
    var w' := Next(w, s);
    forall x | x in w'.regs ensures RegionOk(w', x) && WritableOk(w', x) && Content(w', x) == Content(w, x) {
      SpacesRegion(w, s, x);
    }
    forall x, y | x in w'.regs && y in w'.regs ensures SharersAgree(w', x, y) {
      SpacesRegion(w, s, x);
      SpacesRegion(w, s, y);
      assert SharersAgree(w, x, y);
    }
    SpacesMems(w, w');
  }

  /** Every step of the pager is a step of the machine without sharing. */
  lemma StepRefines(w: World, s: Step)
    requires Inv(w) && Enabled(w, s)
    ensures Inv(Next(w, s)) && Abs(Next(w, s)) == Simple(Abs(w), s)
  {
    match s
    case SNewSpace(_, _) => SpacesKeep(w, s);
    case SRemoveSpace(_) => SpacesKeep(w, s);
    case SPopulate(k, memoff, size, pages, m, g) =>
      PopulateInv(w, k, memoff, size, pages, m, g);
      PopulateAbs(w, k, memoff, size, pages, m, g);
    case SFault(k, m, g) => FaultKeeps(w, k, m, g);
    case SShare(k, child) =>
      assert RegionOk(w, k) && MemOk(w, w.regs[k].mem);
      ShareInv(w, k, child);
      ShareAbs(w, k, child);
    case SDrop(k) =>
      DropInv(w, k);
      DropAbs(w, k);
    case SStore(k, i, v) =>
      StoreInv(w, k, i, v);
      StoreAbs(w, k, i, v);
  }

  ghost predicate Run(w: World, steps: seq<Step>, w': World)
    decreases |steps|
  {
    if steps == [] then w == w'
    else Enabled(w, steps[0]) && Run(Next(w, steps[0]), steps[1..], w')
  }

  function SimpleRun(a: Private, steps: seq<Step>): Private
    decreases |steps|
  {
    if steps == [] then a else SimpleRun(Simple(a, steps[0]), steps[1..])
  }

  /** The pager refines private memory in every run. */
  lemma {:induction false} RunRefines(w: World, steps: seq<Step>, w': World)
    requires Inv(w) && Run(w, steps, w')
    ensures Inv(w') && Abs(w') == SimpleRun(Abs(w), steps)
    decreases |steps|
  {
    if steps != [] {
      StepRefines(w, steps[0]);
      RunRefines(Next(w, steps[0]), steps[1..], w');
    }
  }

  /** The steps that are about the contents of region `x` itself. */
  predicate Concerns(s: Step, x: Key) {
    match s
    case SPopulate(k, _, _, _, _, _) => k == x
    case SShare(k, child) => Twin(k, child) == x
    case SDrop(k) => k == x
    case SStore(k, _, _) => k == x
    case _ => false
  }

  lemma {:induction false} SimpleIsolation(a: Private, steps: seq<Step>, x: Key)
    requires x in a && forall i :: 0 <= i < |steps| ==> !Concerns(steps[i], x)
    ensures x in SimpleRun(a, steps) && SimpleRun(a, steps)[x] == a[x]
    decreases |steps|
  {
    if steps != [] {
      assert !Concerns(steps[0], x);
      forall i | 0 <= i < |steps[1..]| ensures !Concerns(steps[1..][i], x) {
        assert steps[1..][i] == steps[i + 1];
      }
      SimpleIsolation(Simple(a, steps[0]), steps[1..], x);
    }
  }

  /** Isolation: whatever is faulted, cloned, dropped or written elsewhere, a region keeps its contents. */
  lemma Isolation(w: World, steps: seq<Step>, w': World, x: Key)
    requires Inv(w) && Run(w, steps, w') && x in w.regs
    requires forall i :: 0 <= i < |steps| ==> !Concerns(steps[i], x)
    ensures x in w'.regs && Content(w', x) == Content(w, x)
  {
    RunRefines(w, steps, w');
    SimpleIsolation(Abs(w), steps, x);
    assert Abs(w')[x] == Abs(w)[x];
  }

  /** A clone is a snapshot: the child keeps seeing what the parent's region contained when it was shared. */
  lemma CloneIsSnapshot(w: World, k: Key, child: AsId, steps: seq<Step>, w': World)
    requires Inv(w) && Enabled(w, SShare(k, child)) && Run(Next(w, SShare(k, child)), steps, w')
    requires forall i :: 0 <= i < |steps| ==> !Concerns(steps[i], Twin(k, child))
    ensures Twin(k, child) in w'.regs && Content(w', Twin(k, child)) == Content(w, k)
  {
    StepRefines(w, SShare(k, child));
    var w1 := Next(w, SShare(k, child));
    assert Abs(w1)[Twin(k, child)] == Abs(w)[k];
    Isolation(w1, steps, w', Twin(k, child));
  }

  /** Every user of writable memory that is referenced more than once is marked copy-on-write. */
  lemma SharedIsCow(w: World, k: Key)
    requires Inv(w) && k in w.regs && Writable(w, k.space)
    ensures w.regs[k].mem in w.mems
    ensures w.mems[w.regs[k].mem].refs > 1 ==> w.regs[k].cow && (w.regs[k].pte.Some? ==> !w.regs[k].pte.value.write)
  {
    assert RegionOk(w, k) && WritableOk(w, k);
  }

  // ---------------------------------------------------------------- the beginning

  const EMPTY_WORLD: World := World(map[], map[], map[], map[])

  lemma EmptyInv()
    ensures Inv(EMPTY_WORLD)
  {
  }

  /** From the beginning: every run is a run of the machine without sharing. */
  lemma EveryRunRefines(steps: seq<Step>, w: World)
    requires Run(EMPTY_WORLD, steps, w)
    ensures Inv(w) && Abs(w) == SimpleRun(map[], steps)
  {
    EmptyInv();
    RunRefines(EMPTY_WORLD, steps, w);
  }

  lemma {:induction false} RunLeaksNothing(w: World, steps: seq<Step>, w': World)
    requires Inv(w) && NothingLeaks(w) && Run(w, steps, w')
    ensures NothingLeaks(w')
    decreases |steps|
  {
    if steps != [] {
      StepRefines(w, steps[0]);
      StepLeaksNothing(w, steps[0]);
      RunLeaksNothing(Next(w, steps[0]), steps[1..], w');
    }
  }

  /** In every run of the pager, all memory that exists is that of some region: when the last one goes, it is given back. */
  lemma MemoryIsGivenBack(steps: seq<Step>, w: World, g: GateId)
    requires Run(EMPTY_WORLD, steps, w) && g in w.gates
    ensures exists k :: k in w.regs && w.regs[k].mem in w.mems && w.mems[w.regs[k].mem].gate == g
  {
    EmptyInv();
    RunRefines(EMPTY_WORLD, steps, w);
    RunLeaksNothing(EMPTY_WORLD, steps, w);
    var m :| m in w.mems && w.mems[m].gate == g;
    assert MemOk(w, m);
    assert Sharers(w, m) != {};
    var k :| k in Sharers(w, m);
    assert k in w.regs && w.regs[k].mem == m;
  }
}
